# pkgfile `update.c`: repository resolution and sync, modelled in Dafny

pkgfile's update step reads pacman's configuration, collects every active
repository together with its mirror servers, downloads each repository's
`.files` metadata archive from the first mirror that answers, and rewrites
the archive uncompressed so later searches read it faster. This project
models that logic and proves what it does:

- `base.dfy` — `Option` and `Result`.
- `text.dfy` (module `Text`) — the string helpers the parser and the URL
  resolver use. `strtrim` and `strreplace` come from util.c, which is not
  part of this model. They are defined by what their names say: trimming
  C-locale whitespace, and replacing every occurrence left to right. Also
  here: cutting a line at `#`, and `line_get_val` (split at the first `=`).
- `config.dfy` (module `Config`) — `find_active_repos` and
  `add_servers_from_include`. `struct repo_t` is the class `Repo`: its
  constructor is `repo_new`, and `AddServer` is `repo_add_server`, which
  grows `servers` in place. Files are a map from path to lines. A path
  absent from the map is a file that cannot be opened. The methods run the
  line loops of the C code. They are proved against `ActiveRepos`, a
  function that first classifies each line (`Lex`, `IncludeLex`) and then
  runs the `in_options` state machine. The section, server and options-mode
  properties are lemmas about that function.
- `url.dfy` (module `Url`) — `prepare_url`.
- `fetch.dfy` (module `Fetch`) — `download_repo_files`. The download
  (`alpm_fetch_pkgurl`) is an oracle from URL to success. The cache file is
  a present/absent flag. The unlink and fetch calls are returned as a trace.
- `transcode.dfy` (module `Transcode`) — `decompress_repo_file`, over an
  abstract entry stream. Each entry is a header followed by its data in
  chunks. Writer oracles say whether each header write and each chunk write
  succeeds in full. The opening codes of the input and the output, and the
  success of the final rename, are parameters.
- `driver.dfy` (module `Driver`) — `nosr_update`, run over the repository
  records that the parser produced.

Where the code and its usual description differ, the model follows the code:

- **Include files are not recursive.** Only lines of an included file that
  *start* with `Server` are read. An `Include` line inside an included
  file is ignored, and so is a nested section header.
- **`Server` matching differs by file.** Include files match `Server` as a
  prefix (update.c:152). The main file needs an exact key (update.c:211).
- **A section header `[]` is accepted.** It yields a repository with an
  empty name.
- **A key other than `Server` or `Include` may come before any section.**
  It is harmless and is accepted.
- **A broken copy is not reported as a failure.** `decompress_repo_file`
  sets its result to 0 once both archives are open, even when a header or
  data write broke the copy loop (update.c:334). It then renames the
  partial output over the downloaded file. `Transcode.BrokenCopyIsPromoted`
  states this.
- **`$repo` is expanded inside the architecture.** `prepare_url` replaces
  `$repo` after `$arch` (update.c:103-113), so a `$repo` inside the
  substituted architecture is replaced as well.
  `Url.ArchValueIsRescanned` states this.
- **A non-`options` header line also reaches the `key = value` check.** It
  falls through (update.c:201-207). `Config.HeaderIsNoDirective` proves this
  never has an effect: the key begins with `[`.

The C code has no defined behaviour for two inputs. The model rejects them
with a `ParseError` instead of inventing a result:

- a `Server` or `Include` line before any section header (update.c:212, 214
  index `active_repos[-1]`);
- an include-file line starting with `Server` that has no `=` (update.c:153-154
  pass NULL to `repo_add_server`).

## Model

| member | source | states |
|---|---|---|
| Text.Trim | update.c:185 | `strtrim` leaves no whitespace at either end and never lengthens the line |
| Text.TrimSlice | update.c:185 | the trimmed line is the slice between the leading and trailing whitespace runs, and only whitespace was removed |
| Text.TrimIdempotent | update.c:209 | `strtrim` is idempotent: trimming a string that is already trimmed changes nothing |
| Text.TrimKeepsFirst | update.c:189 | trimming keeps a line's first character when it is not whitespace |
| Text.StripComment | update.c:182-184 | the line is cut exactly at its first `#`: a prefix of the line, free of `#`, followed in the line by `#` when shorter |
| Text.Normalize | update.c:182-187 | the line that the parser examines has no whitespace at either end |
| Text.IndexOf | update.c:207 | `strchr`: none exactly when the character is absent, otherwise the index of its first occurrence |
| Text.KeyValue | update.c:207-209 | a line splits into a key and a value exactly when it has a `=`, and both parts are trimmed and shorter than the line |
| Text.LineGetVal | update.c:124-129 | `line_get_val` has a value exactly when the line has a `=`, and that value is trimmed |
| Text.KeyValueSplitsAtFirst | update.c:124-129 | the split is at the first `=`: a `=`-free key, `=` and any value (even one holding `=`) split back into the trimmed key and value |
| Text.ReplaceAll | update.c:103-113 | `strreplace` as `prepare_url` calls it: each occurrence of the pattern, found left to right without overlap, becomes the replacement, and the text between occurrences is copied |
| Text.ReplaceAllAbsent | update.c:103-113 | replacing a pattern that does not occur changes nothing |
| Text.ReplaceAllSelf | update.c:103-113 | replacing a pattern by itself changes nothing |
| Text.CountZeroIffAbsent | update.c:103-113 | there is an occurrence to replace exactly when `strstr` finds the pattern |
| Text.ReplaceAllLength | update.c:103-113 | each replacement changes the length by the difference between replacement and pattern |
| Text.ReplaceAllSkipsPrefix | update.c:103-113 | text before the first possible occurrence is copied unchanged |
| Config.Repo.constructor | update.c:40-53 | `repo_new` gives a repository with the given name and no servers |
| Config.Repo.AddServer | update.c:68-81 | `repo_add_server` appends one server at the end and keeps the earlier ones |
| Config.IsHeader | update.c:189 | a section header is a line that starts with `[` and ends with `]`, so it has at least two characters |
| Config.Lex | update.c:182-209 | a line of the main file, with its comment cut and then trimmed, is blank, a header `[name]`, a `key = value` pair split at its first `=` with both sides trimmed, or a line with no `=` |
| Config.IncludeLex | update.c:145-153 | a line of an include file, with its comment cut and then trimmed, is ignored unless it starts with `Server`; such a line gives the trimmed text after its first `=`, and is malformed without one |
| Config.IncludeServers | update.c:144-156 | the servers of an include file are the values of its `Server` lines in file order, or the error of the first malformed one |
| Config.ApplyDirective | update.c:211-215 | `Server` appends its value to the most recent repository; `Include` appends the servers of the named file, or nothing when it cannot be opened; any other key is ignored; `Server` or `Include` before any section is an error |
| Config.Step | update.c:185-216 | one line of the loop: a blank line is skipped; `[options]` turns options mode on; any other header appends a repository with no servers and turns options mode off; in options mode other lines are ignored; outside it a `key = value` line goes to `ApplyDirective` |
| Config.ActiveRepos | update.c:163-223 | a configuration file that cannot be opened is an error; otherwise the repositories that the loop collects from the classified lines, or the loop's error |
| Config.AppendServers | update.c:211-214 | growing the most recent repository leaves the number of repositories, every other repository and its name unchanged, and appends the new servers at its end |
| Config.AddServersFromInclude | update.c:131-161 | an unopenable include file returns 1 and appends nothing; otherwise the value of every `Server`-prefixed line is appended in file order |
| Config.ApplyKeyValue | update.c:207-215 | a line without `=` changes nothing; otherwise the objects change exactly as `ApplyDirective` applies its trimmed key and value, and report the same error |
| Config.Directive | update.c:211-215 | a `Server` key grows the most recent repository object by its value and an `Include` key by the servers of the named file, both as `AppendServers` does on the records; any other key changes nothing; a directive before any section is an error |
| Config.IncludeDirective | update.c:213-214 | `Include = path` appends exactly the servers of the file, nothing when it cannot be opened, and reports a malformed file's error |
| Config.DirectiveOutcome | update.c:211-215 | a `Server` or `Include` directive inside a section either fails with the include file's error or appends the servers it names to the last repository |
| Config.StepOnPair | update.c:203-215 | a line that is neither blank nor a header is ignored in options mode and is otherwise read as a `key = value` line |
| Config.OpenSection | update.c:197-199 | `repo_new` appends one fresh repository, with the header's name and no servers, after the existing ones |
| Config.HeaderLine | update.c:189-207 | `[options]` turns options mode on and creates nothing; any other header appends one fresh repository and leaves options mode, in step with the state machine |
| Config.HeaderIsNoDirective | update.c:189-207 | a header line that falls through to the `key = value` check never has a directive key |
| Config.ProcessLine | update.c:181-216 | one pass of the loop performs exactly one step of the state machine, adding at most one fresh repository |
| Config.ParseStep | update.c:181-217 | a line that fails ends the parse with its error; otherwise the parse goes on from the state after the line |
| Config.ParseLines | update.c:181-222 | the loop over the lines fails exactly as the state machine does, with the same error; on success its distinct fresh objects hold the state machine's repositories, in order |
| Config.FindActiveRepos | update.c:163-223 | the repositories returned are distinct fresh objects whose names and servers are those of `ActiveRepos`; an unreadable file or an undefined input is reported with the error `ActiveRepos` gives |
| Config.Names | update.c:197-199 | the names of the repositories, position by position |
| Config.AppendServersKeepsNames | update.c:211-214 | adding servers never renames a repository |
| Config.StepNames | update.c:189-200 | a line never renames, drops or reorders repositories, and a non-`options` header adds exactly one at the end |
| Config.ParseNames | update.c:181-217 | the repositories are the non-`options` sections, one each, in file order |
| Config.ActiveRepoNames | update.c:163-223 | the names `find_active_repos` returns are exactly the non-`options` section names, in file order |
| Config.OptionsHeaderStep | update.c:192-194 | `[options]` creates no repository and turns options mode on |
| Config.OptionsModeSkips | update.c:203-205 | in options mode every line up to the next header is ignored, `Server` and `Include` lines included |
| Config.ServerLineStep | update.c:207-212 | outside options mode a `Server = v` line appends `v` to the most recent repository and changes nothing else |
| Config.SectionBodyServers | update.c:207-215 | inside a section, the repository receives the direct `Server` values and the servers of readable `Include` files, all in file order |
| Config.ParseFromAppend | update.c:181-217 | the loop over two runs of lines is the loop over the first and then, unless it failed, the loop over the second from the state it reached |
| Config.SectionAlone | update.c:189-215 | a section adds one repository, named by its header, whose servers are the section's contributions in file order, or fails with the first malformed include file's error |
| Config.SectionRecord | update.c:189-215 | a section followed by further lines adds its repository, named by its header and holding the section's contributions, and the further lines run on from there; a malformed include file's error ends the parse |
| Config.OptionsSection | update.c:192-205 | the `[options]` section, whatever its lines, adds nothing and leaves options mode on for what follows |
| Config.Records | update.c:189-215 | the records of a run of sections: one per non-`options` section, in order, named by its header and holding its contributions; the first malformed include file is the error |
| Config.ParseSections | update.c:181-217 | the loop over a run of sections appends exactly their records to the repositories already found, or fails with the same error |
| Config.RecordsOk | update.c:181-217 | a run of sections yields records exactly when no repository section includes a malformed file |
| Config.RecordsAt | update.c:189-215 | the k-th record is the k-th non-`options` section, with its name and its contributions |
| Config.PreambleSkipped | update.c:203-215 | lines before the first header that are neither `Server` nor `Include` directives change nothing |
| Config.DirectiveBeforeSectionFails | update.c:211-214 | a `Server` or `Include` line before any section header ends the parse with an error |
| Config.ActiveReposBySection | update.c:163-223 | for a file made of a preamble and sections, the result of `find_active_repos` is the sections' records |
| Config.ActiveReposRecords | update.c:163-223 | for such a file, reading succeeds exactly when no repository section includes a malformed file, and then the k-th repository returned is the k-th non-`options` section, named by its header and holding its `Server` values and included servers in file order |
| Config.AppendServersTwice | update.c:68-81 | appending servers in two steps equals appending them at once |
| Config.AppendNothing | update.c:213-214 | an include contributing no servers leaves the state unchanged |
| Config.CollectServersAppend | update.c:144-156 | the servers of an include file are the concatenation of the servers of its parts |
| Config.PrefixMatchOnlyInInclude | update.c:152 | a line such as `ServerList = v` adds `v` from an include file but nothing from the main file |
| Url.PrepareUrl | update.c:94-122 | the `strstr` guards change nothing: the URL is every `$arch` replaced, then every `$repo`, then `/<repo><suffix>` |
| Url.PlainTemplatePassesThrough | update.c:101-113 | a template with neither placeholder is used as it is |
| Url.UrlEndsWithFileName | update.c:115 | the URL always ends with `/<repo><suffix>` |
| Url.UrlLength | update.c:103-115 | the URL's length accounts for each replaced `$arch` and `$repo` and for the appended file name |
| Url.TypicalMirror | update.c:94-122 | a mirror line `<host>$repo<path>$arch` expands to `<host><repo><path><arch>/<repo><suffix>` |
| Url.ArchValueIsRescanned | update.c:103-113 | `$repo` is replaced after `$arch`, so a `$repo` inside the architecture value is expanded too |
| Url.ArchValueIsRescannedExample | update.c:103-115 | the template `$arch` with architecture `$repo` and repository `core` gives `core/core.files` |
| Fetch.MirrorUrls | update.c:242-243 | one URL per server, in server order, each from `prepare_url` with the `.files` suffix |
| Fetch.FirstOk | update.c:242-261 | the index of the first URL that downloads: every earlier one fails, and it succeeds if it is in range |
| Fetch.Attempts | update.c:242-251 | the trace of trying mirrors in order: for each one, the cache file is unlinked and then its URL is downloaded |
| Fetch.Tried | update.c:242-261 | the URLs tried are those up to and including the first one that downloads, or all of them |
| Fetch.DownloadCode | update.c:242-262 | the result is 0 when some mirror's URL downloads, and 1 otherwise |
| Fetch.DownloadRepoFiles | update.c:234-263 | the return code is that of the first successful mirror (0) or 1; the trace is an unlink then a download for each mirror up to the first success, and none after |
| Fetch.TryInOrder | update.c:242-261 | the loop succeeds exactly when some URL downloads, and its trace stops at the first URL that does |
| Fetch.AttemptsNext | update.c:250-251 | each further mirror adds an unlink of the cache file and a download of that mirror's URL to the trace |
| Fetch.DownloadCodeIff | update.c:242-263 | the result is 0 exactly when some mirror's URL downloads, and 1 otherwise, also with no servers |
| Fetch.CacheAfterDownload | update.c:242-263 | afterwards the cache file exists exactly when the download succeeded; with no servers it is left as it was |
| Fetch.CacheAfterTried | update.c:242-261 | after trying mirrors in order, the cache file exists exactly when one of them downloaded |
| Fetch.FirstOkIsFirst | update.c:242-261 | a successful mirror with only failures before it is the first success |
| Fetch.FirstOkNone | update.c:242-262 | when every mirror fails, none is successful |
| Fetch.AttemptsShape | update.c:250-251 | the trace alternates: the cache file is removed before the n-th download, and the n-th download is of the n-th mirror |
| Fetch.TriedStopsAtFirstSuccess | update.c:242-261 | the mirrors tried are a prefix of the list; all but the last failed; the last succeeded exactly when some mirror can |
| Transcode.CopyChunksSpec | update.c:314-326 | the chunks copied are a prefix of the entry's data, every one written in full, and the copy stops only at a failed write |
| Transcode.CopyChunks | update.c:314-326 | the chunks the inner loop writes, from the j-th on: in order, ending before the first write that falls short, and never more than remain |
| Transcode.CopyEntryData | update.c:314-326 | the inner loop copies exactly those chunks and reports whether it stopped early |
| Transcode.CopyChunksNext | update.c:315-325 | a chunk written in full moves from the rest of the copy into what is already copied |
| Transcode.CopyChunksEnd | update.c:315-324 | the copy of an entry ends at the end of its data or at the first chunk write that falls short |
| Transcode.CopyEntries | update.c:307-330 | the outer loop writes exactly the entries `CopyFrom` gives, up to the first failed write |
| Transcode.CopyFromNext | update.c:307-330 | an entry copied in full is written and the loop goes on with the next entry |
| Transcode.CopyFromStops | update.c:307-330 | the loop ends at the end of the input, at a failed header write, or after an entry whose data write fell short |
| Transcode.CopyFrom | update.c:307-330 | the entries written from the i-th on: each entry whose header write succeeds is copied, and the loop stops at a failed header write or after a short data write |
| Transcode.TranscodeOutcome | update.c:265-347 | a failed allocation gives -1 and a failed open gives its code (the input first), with nothing written; otherwise 0, the entries `CopyFrom` writes, and the rename |
| Transcode.DecompressRepoFile | update.c:265-347 | returns 0 exactly when allocation and both opens succeed; otherwise the failing open's code (the input first) or -1; renames exactly when the result is 0 and the rename succeeds; the output holds the entries copied before the first failed write |
| Transcode.CopyCompleteIff | update.c:307-330 | the output equals the input, entry for entry, exactly when every header and chunk write succeeds |
| Transcode.CopyIsPrefix | update.c:307-330 | the output is whole input entries in order, then at most one entry with a prefix of its data |
| Transcode.BrokenCopyIsPromoted | update.c:332-343 | once both archives are open, a failed write still gives 0 and the rename, so the renamed file differs from the downloaded archive |
| Transcode.RenameDoesNotChangeResult | update.c:340-346 | whether the rename succeeds changes neither the result nor the output |
| Driver.Codes | update.c:376-385 | one code per repository, in order |
| Driver.RunRepo | update.c:377-380 | one repository's run: its download code, then the transcoder's code only when the download succeeded |
| Driver.ExpectedRun | update.c:377-380 | a repository's download code, and the transcoder's code only when the download returned 0 |
| Driver.ExpectedRunsAt | update.c:376-385 | there is one run per repository, and the k-th run is the k-th repository's |
| Driver.NosrUpdate | update.c:349-390 | returns 1 and touches no repository when the cache directory is not writable or the library cannot start; otherwise processes every repository in order, transcodes only after a successful download, returns the aggregate code, and returns 0 exactly when every repository succeeded |
| Driver.AggregateStep | update.c:382-384 | a failing repository's code becomes the result, and a successful one leaves it |
| Driver.Aggregate | update.c:382-389 | the code returned: that of the last repository that failed, or 0 |
| Driver.AggregateZeroIff | update.c:376-389 | the result is 0 exactly when every repository's code is 0 |
| Driver.AggregateIsLastFailure | update.c:376-389 | a non-zero result is the code of a repository after which every repository succeeded |
| Driver.NoMirrorsFails | update.c:242-262 | a repository with no servers makes the code that `nosr_update` returns over the repositories' runs non-zero |

## Left out

- alpm calls are left out: `alpm_initialize`, `alpm_option_add_cachedir`, `alpm_option_set_dlcb` and `alpm_release`. Only whether initialisation succeeds is kept (`RunEnv.alpmReady`), and `alpm_fetch_pkgurl` is an oracle from URL to success.
- The progress callback `alpm_progress_cb` is left out: it is floating-point formatting for the terminal. So are all `printf`/`fprintf`/`perror` output and the `isatty` check that only decides what is printed.
- System calls are parameters. `access` is `cacheWritable`, `uname` is `arch`, `rename` is `renameOk`, whether `<name>.files` exists is a flag, and `unlink` appears as an event. The cache directory `CACHEPATH` is implicit: file names are relative to it.
- Lines are taken as given. `fgets` splits lines longer than 4095 bytes into pieces, and that splitting is not modelled.
- Memory failures are not modelled, except where a code reaches the caller. The failure of `calloc`, `asprintf`, `realloc` or `strdup` in `repo_new`, `repo_add_server` and `prepare_url` is left out. The NULL check in `repo_add_server` is left out too, since the model's repository always exists. The allocation failure of the archive objects, which returns -1, is modelled.
- `repo_free` is not part of this model: it only frees memory.
- libarchive is abstracted to the entries it yields. Format and compression detection, the `BUFSIZ` chunking and the CPIO encoding are left out. An error from `archive_read_next_header` is treated like the end of the archive, which is how the loop condition treats it. A negative `archive_read_data` result is not modelled: chunks are non-empty byte sequences, and the empty read ends an entry.
- Text.ReplaceAll: defined only for a non-empty pattern. `prepare_url` only calls `strreplace` with the fixed patterns `$arch` and `$repo`.
- Driver.NosrUpdate: works on the repository records once parsing is done, not on the `struct repo_t` objects. Nothing changes a repository after `find_active_repos`.
