/**
 * prepare_url (update.c:94-122): expands the `$arch` and `$repo`
 * placeholders of a mirror URL template and appends the metadata file name.
 */
module Url {
  import opened Text

  const ArchVar := "$arch"
  const RepoVar := "$repo"

  /**
   * `$arch` is replaced first, then `$repo`; each replacement runs only when
   * its placeholder occurs (the strstr guards). Then `/<repo><suffix>` is
   * appended. The guards change nothing: the result is the two unconditional
   * replacements followed by the file name.
   */
  function PrepareUrl(template: string, repo: string, arch: string, suffix: string): (url: string)
    ensures url == ReplaceAll(ReplaceAll(template, ArchVar, arch), RepoVar, repo) + "/" + repo + suffix
  {
    var expanded := if Contains(template, ArchVar) then ReplaceAll(template, ArchVar, arch) else template;
    ReplaceAllAbsentWhenUnguarded(template, ArchVar, arch);
    var full := if Contains(expanded, RepoVar) then ReplaceAll(expanded, RepoVar, repo) else expanded;
    ReplaceAllAbsentWhenUnguarded(expanded, RepoVar, repo);
    full + "/" + repo + suffix
  }

  lemma ReplaceAllAbsentWhenUnguarded(s: string, pat: string, rep: string)
    requires pat != []
    ensures !Contains(s, pat) ==> ReplaceAll(s, pat, rep) == s
  {
    if !Contains(s, pat) {
      ReplaceAllAbsent(s, pat, rep);
    }
  }

  /** A template without placeholders is used as it is, before the file name. */
  lemma PlainTemplatePassesThrough(template: string, repo: string, arch: string, suffix: string)
    requires !Contains(template, ArchVar) && !Contains(template, RepoVar)
    ensures PrepareUrl(template, repo, arch, suffix) == template + "/" + repo + suffix
  {
    ReplaceAllAbsent(template, ArchVar, arch);
    ReplaceAllAbsent(template, RepoVar, repo);
  }

  /** The URL always ends with `/<repo><suffix>`. */
  lemma UrlEndsWithFileName(template: string, repo: string, arch: string, suffix: string)
    ensures var url := PrepareUrl(template, repo, arch, suffix);
      |url| >= |repo| + |suffix| + 1 && url[|url| - |repo| - |suffix| - 1..] == "/" + repo + suffix
  {
    var url := PrepareUrl(template, repo, arch, suffix);
    var head := ReplaceAll(ReplaceAll(template, ArchVar, arch), RepoVar, repo);
    assert url == head + ("/" + repo + suffix);
  }

  /**
   * The length of the URL: each `$arch` grows the template by |arch| - 5,
   * each `$repo` found after that expansion by |repo| - 5.
   */
  lemma UrlLength(template: string, repo: string, arch: string, suffix: string)
    ensures var expanded := ReplaceAll(template, ArchVar, arch);
      |PrepareUrl(template, repo, arch, suffix)| ==
        |template| + Count(template, ArchVar) * (|arch| - 5)
        + Count(expanded, RepoVar) * (|repo| - 5) + 1 + |repo| + |suffix|
  {
    var expanded := ReplaceAll(template, ArchVar, arch);
    ReplaceAllLength(template, ArchVar, arch);
    ReplaceAllLength(expanded, RepoVar, repo);
  }

  /**
   * The shape of a typical mirror line, `<host>$repo<path>$arch`, as in
   * `http://mirror/$repo/os/$arch`: both placeholders are expanded, and
   * the file name follows.
   */
  lemma TypicalMirror(host: string, path: string, repo: string, arch: string, suffix: string)
    requires '$' !in host && '$' !in path && '$' !in arch
    ensures PrepareUrl(host + RepoVar + path + ArchVar, repo, arch, suffix)
      == host + repo + path + arch + "/" + repo + suffix
  {
    TypicalMirrorArch(host, path, arch);
    TypicalMirrorRepo(host, path + arch, repo);
    assert host + RepoVar + path + arch == host + RepoVar + (path + arch);
    assert host + repo + (path + arch) == host + repo + path + arch;
  }

  /** `$arch` in `<host>$repo<path>$arch`: only the final placeholder matches. */
  lemma TypicalMirrorArch(host: string, path: string, arch: string)
    requires '$' !in host && '$' !in path
    ensures ReplaceAll(host + RepoVar + path + ArchVar, ArchVar, arch) == host + RepoVar + path + arch
  {
    var word := "repo" + path;
    var tail := [RepoVar[0]] + (word + ArchVar);
    assert host + RepoVar + path + ArchVar == host + tail;
    assert '$' !in word by {
      assert forall k :: 0 <= k < |path| ==> word[k + 4] == path[k];
    }
    ReplaceAllSkipsPrefix(host, tail, ArchVar, arch);
    assert tail[1] != ArchVar[1];
    ReplaceAllMismatch(RepoVar[0], word + ArchVar, ArchVar, arch);
    ReplaceAllSkipsPrefix(word, ArchVar, ArchVar, arch);
    ReplaceAllWhole(ArchVar, arch);
    assert host + ([RepoVar[0]] + (word + arch)) == host + RepoVar + path + arch;
  }

  /** `$repo` in `<host>$repo<rest>`, with no `$` in host or rest. */
  lemma TypicalMirrorRepo(host: string, rest: string, repo: string)
    requires '$' !in host && '$' !in rest
    ensures ReplaceAll(host + RepoVar + rest, RepoVar, repo) == host + repo + rest
  {
    assert host + RepoVar + rest == host + (RepoVar + rest);
    ReplaceAllSkipsPrefix(host, RepoVar + rest, RepoVar, repo);
    assert (RepoVar + rest)[|RepoVar|..] == rest;
    ReplaceAllSkipsPrefix(rest, [], RepoVar, repo);
    assert rest + [] == rest;
  }

  /**
   * The order of the replacements shows: `$repo` is replaced after `$arch`,
   * so a `$repo` inside the architecture value is expanded as well.
   */
  lemma ArchValueIsRescanned(repo: string, arch: string, suffix: string)
    ensures PrepareUrl(ArchVar, repo, arch, suffix) == ReplaceAll(arch, RepoVar, repo) + "/" + repo + suffix
  {
    ReplaceAllWhole(ArchVar, arch);
  }

  /** For instance, the template `$arch` with architecture `$repo` and repository `core` gives `core/core.files`. */
  lemma ArchValueIsRescannedExample()
    ensures PrepareUrl(ArchVar, "core", RepoVar, ".files") == "core/core.files"
  {
    ArchValueIsRescanned("core", RepoVar, ".files");
    ReplaceAllWhole(RepoVar, "core");
  }
}
