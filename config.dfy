/**
 * The configuration parser of update.c (find_active_repos and its helpers):
 * a line-by-line state machine over pacman.conf that collects every
 * non-`options` section as a repository together with its mirror servers,
 * taken from `Server =` lines and from the `Server` lines of `Include =` files.
 *
 * The file system is a map from path to the file's lines; a path missing
 * from the map is a file that cannot be opened. The methods are proved
 * against ActiveRepos, which first classifies each line (Lex, IncludeLex)
 * and then runs the state machine (Step, ParseFrom) over the classified lines.
 */
module Config {
  import opened Base
  import opened Text

  type FileSystem = map<string, seq<string>>

  /** A repository as the rest of the program sees it once parsing is done. */
  datatype RepoRecord = RepoRecord(name: string, servers: seq<string>)

  /**
   * Inputs the C code has no defined behaviour for, plus the unreadable
   * configuration file (find_active_repos returns NULL).
   */
  datatype ParseError =
    | ConfigUnreadable(path: string)
    | DirectiveBeforeSection(key: string)
    | IncludeServerWithoutValue(path: string)

  /** What add_servers_from_include reports: 0, 1, or the undefined case. */
  datatype IncludeStatus = IncludeOk | IncludeOpenFailed | IncludeMalformed

  /** struct repo_t: created by repo_new, grown in place by repo_add_server. */
  class Repo {
    const name: string
    var servers: seq<string>

    /** repo_new: a repository with the given name and no servers. */
    constructor (name: string)
      ensures this.name == name && servers == []
    {
      this.name := name;
      servers := [];
    }

    /** repo_add_server: appends one server; servercount is |servers|. */
    method AddServer(server: string)
      modifies this
      ensures servers == old(servers) + [server]
    {
      servers := servers + [server];
    }

    function Record(): RepoRecord
      reads this
    {
      RepoRecord(name, servers)
    }
  }

  // ----- Lines -----

  /** A trimmed line of the form `[...]`. */
  predicate IsHeader(t: string) {
    |t| >= 2 && t[0] == '[' && t[|t| - 1] == ']'
  }

  function SectionName(t: string): string
    requires IsHeader(t)
  {
    t[1..|t| - 1]
  }

  /** A line of the main configuration file, once its comment is cut and it is trimmed. */
  datatype LineKind = Blank | Section(name: string) | Pair(key: string, value: string) | Plain

  /** How find_active_repos reads a line (update.c:182-189, 207-209). */
  function Lex(line: string): LineKind {
    var t := Normalize(line);
    if t == [] then Blank
    else if IsHeader(t) then Section(SectionName(t))
    else match KeyValue(t)
      case None => Plain
      case Some((key, val)) => Pair(key, val)
  }

  /** A line of an include file. */
  datatype IncludeKind = NoServer | ServerValue(value: string) | ServerWithoutValue

  /**
   * How add_servers_from_include reads a line (update.c:145-154): only
   * lines that START with `Server` matter, whatever follows the prefix.
   */
  function IncludeLex(line: string): IncludeKind {
    var t := Normalize(line);
    if t == [] || !("Server" <= t) then NoServer
    else match LineGetVal(t)
      case None => ServerWithoutValue
      case Some(v) => ServerValue(v)
  }

  // ----- The parser as a function of the classified lines -----

  /** Parser state: the repositories so far and the `in_options` flag. */
  datatype State = State(repos: seq<RepoRecord>, inOptions: bool)

  const Initial := State([], false)

  function Last<T>(s: seq<T>): T
    requires s != []
  {
    s[|s| - 1]
  }

  /** Appends `vs` to the servers of the most recent repository. */
  function AppendServers(st: State, vs: seq<string>): (st': State)
    requires st.repos != []
    ensures |st'.repos| == |st.repos| && st'.inOptions == st.inOptions
    ensures st'.repos[..|st.repos| - 1] == st.repos[..|st.repos| - 1]
    ensures Last(st'.repos).name == Last(st.repos).name
    ensures Last(st'.repos).servers == Last(st.repos).servers + vs
  {
    var n := |st.repos|;
    var last := st.repos[n - 1];
    State(st.repos[..n - 1] + [RepoRecord(last.name, last.servers + vs)], st.inOptions)
  }

  function Prepend(vs: seq<string>, r: Result<seq<string>, ParseError>): Result<seq<string>, ParseError> {
    match r
    case Err(e) => Err(e)
    case Ok(ws) => Ok(vs + ws)
  }

  /** The servers named by classified include lines, in order. */
  function CollectServers(path: string, ks: seq<IncludeKind>): Result<seq<string>, ParseError> {
    if ks == [] then Ok([])
    else match ks[0]
      case NoServer => CollectServers(path, ks[1..])
      case ServerWithoutValue => Err(IncludeServerWithoutValue(path))
      case ServerValue(v) => Prepend([v], CollectServers(path, ks[1..]))
  }

  /** The classification of every line of an include file. */
  function IncludeKinds(lines: seq<string>): (ks: seq<IncludeKind>)
    ensures |ks| == |lines|
  {
    if lines == [] then [] else [IncludeLex(lines[0])] + IncludeKinds(lines[1..])
  }

  lemma {:induction false} IncludeKindsAt(lines: seq<string>, i: nat)
    requires i < |lines|
    ensures IncludeKinds(lines)[i] == IncludeLex(lines[i])
  {
    if i > 0 {
      IncludeKindsAt(lines[1..], i - 1);
    }
  }

  /** The servers an include file contributes, in file order. */
  function IncludeServers(path: string, lines: seq<string>): Result<seq<string>, ParseError> {
    CollectServers(path, IncludeKinds(lines))
  }

  /** A `key = value` line outside options mode (update.c:211-215). */
  function ApplyDirective(fs: FileSystem, st: State, key: string, val: string): Result<State, ParseError> {
    if key != "Server" && key != "Include" then Ok(st)
    else if st.repos == [] then Err(DirectiveBeforeSection(key))
    else if key == "Server" then Ok(AppendServers(st, [val]))
    else if val !in fs then Ok(st)
    else match IncludeServers(val, fs[val])
      case Err(e) => Err(e)
      case Ok(vs) => Ok(AppendServers(st, vs))
  }

  /** One iteration of the loop at update.c:181-217. */
  function Step(fs: FileSystem, st: State, line: LineKind): Result<State, ParseError> {
    match line
    case Blank => Ok(st)
    case Section(name) =>
      if name == "options" then Ok(State(st.repos, true))
      else Ok(State(st.repos + [RepoRecord(name, [])], false))
    case Plain => Ok(st)
    case Pair(key, val) => if st.inOptions then Ok(st) else ApplyDirective(fs, st, key, val)
  }

  /** The loop run from state `st` over the remaining classified lines. */
  function ParseFrom(fs: FileSystem, st: State, lines: seq<LineKind>): Result<State, ParseError>
    decreases |lines|
  {
    if lines == [] then Ok(st)
    else match Step(fs, st, lines[0])
      case Err(e) => Err(e)
      case Ok(st') => ParseFrom(fs, st', lines[1..])
  }

  /** The classification of every line of the configuration file. */
  function LexAll(lines: seq<string>): (ks: seq<LineKind>)
    ensures |ks| == |lines|
  {
    if lines == [] then [] else [Lex(lines[0])] + LexAll(lines[1..])
  }

  lemma {:induction false} LexAllAt(lines: seq<string>, i: nat)
    requires i < |lines|
    ensures LexAll(lines)[i] == Lex(lines[i])
  {
    if i > 0 {
      LexAllAt(lines[1..], i - 1);
    }
  }

  /** find_active_repos as a function of the file system. */
  function ActiveRepos(fs: FileSystem, path: string): Result<seq<RepoRecord>, ParseError> {
    if path !in fs then Err(ConfigUnreadable(path))
    else match ParseFrom(fs, Initial, LexAll(fs[path]))
      case Err(e) => Err(e)
      case Ok(st) => Ok(st.repos)
  }

  // ----- The parser as update.c runs it -----

  /** One line of the include loop, in terms of the classified lines. */
  /** Before the loop over an include file nothing is collected yet. */
  lemma CollectStart(path: string, ks: seq<IncludeKind>)
    ensures CollectServers(path, ks) == Prepend([], CollectServers(path, ks[0..]))
  {
    assert ks[0..] == ks;
    var r := CollectServers(path, ks);
    if r.Ok? {
      assert [] + r.value == r.value;
    }
  }

  /** After the last line everything is collected. */
  lemma CollectDone(path: string, ks: seq<IncludeKind>, added: seq<string>)
    requires CollectServers(path, ks) == Prepend(added, CollectServers(path, ks[|ks|..]))
    ensures CollectServers(path, ks) == Ok(added)
  {
    assert ks[|ks|..] == [];
    assert added + [] == added;
  }

  lemma CollectAdvance(path: string, ks: seq<IncludeKind>, i: nat, added: seq<string>)
    requires i < |ks|
    requires CollectServers(path, ks) == Prepend(added, CollectServers(path, ks[i..]))
    ensures ks[i] == ServerWithoutValue ==> CollectServers(path, ks).Err?
    ensures ks[i] == NoServer ==> CollectServers(path, ks) == Prepend(added, CollectServers(path, ks[i + 1..]))
    ensures ks[i].ServerValue? ==>
      CollectServers(path, ks) == Prepend(added + [ks[i].value], CollectServers(path, ks[i + 1..]))
  {
    assert ks[i..][0] == ks[i];
    assert ks[i..][1..] == ks[i + 1..];
    var rest := CollectServers(path, ks[i + 1..]);
    if rest.Ok? && ks[i].ServerValue? {
      assert added + ([ks[i].value] + rest.value) == (added + [ks[i].value]) + rest.value;
    }
  }

  /** Appending a server to what was appended so far. */
  lemma AppendOne(start: seq<string>, added: seq<string>, v: string)
    ensures (start + added) + [v] == start + (added + [v])
  {
  }

  /**
   * add_servers_from_include: appends the value of every `Server`-prefixed
   * line of the include file, in order. An unreadable file appends nothing
   * and reports 1 (IncludeOpenFailed).
   */
  method AddServersFromInclude(repo: Repo, fs: FileSystem, path: string) returns (status: IncludeStatus)
    modifies repo
    ensures (status == IncludeOpenFailed) <==> path !in fs
    ensures path !in fs ==> repo.servers == old(repo.servers)
    ensures path in fs ==> ((status == IncludeOk) <==> IncludeServers(path, fs[path]).Ok?)
    ensures status == IncludeOk ==> repo.servers == old(repo.servers) + IncludeServers(path, fs[path]).value
  {
    if path !in fs {
      return IncludeOpenFailed;
    }
    var lines := fs[path];
    ghost var ks := IncludeKinds(lines);
    ghost var added: seq<string> := [];
    var i := 0;
    CollectStart(path, ks);
    while i < |lines|
      invariant 0 <= i <= |lines|
      invariant repo.servers == old(repo.servers) + added
      invariant CollectServers(path, ks) == Prepend(added, CollectServers(path, ks[i..]))
    {
      CollectAdvance(path, ks, i, added);
      IncludeKindsAt(lines, i);
      match IncludeLex(lines[i]) {
        case NoServer =>
        case ServerWithoutValue =>
          return IncludeMalformed;
        case ServerValue(v) =>
          repo.AddServer(v);
          AppendOne(old(repo.servers), added, v);
          added := added + [v];
      }
      i := i + 1;
    }
    CollectDone(path, ks, added);
    return IncludeOk;
  }

  /** The records of a sequence of repository objects. */
  ghost predicate Mirrors(repos: seq<Repo>, recs: seq<RepoRecord>)
    reads set r | r in repos
  {
    |repos| == |recs| && forall k :: 0 <= k < |repos| ==> repos[k].Record() == recs[k]
  }

  /** Distinct objects, so that growing one repository leaves the others alone. */
  predicate Distinct(repos: seq<Repo>) {
    forall a, b :: 0 <= a < b < |repos| ==> repos[a] != repos[b]
  }

  /** A method's outcome matches the result of Step or ApplyDirective: the same error, or no error and the same state. */
  predicate Agrees(spec: Result<State, ParseError>, err: Option<ParseError>, st: State) {
    match spec
    case Err(e) => err == Some(e)
    case Ok(st') => err == None && st' == st
  }

  /** The effect of a trimmed line's `key = value` reading, if it has one. */
  function DirectiveOf(fs: FileSystem, st: State, t: string): Result<State, ParseError> {
    match KeyValue(t)
    case None => Ok(st)
    case Some((key, val)) => ApplyDirective(fs, st, key, val)
  }

  /**
   * The `key = value` branch of find_active_repos (update.c:207-215): a
   * line without `=` changes nothing; otherwise its trimmed key and value
   * are applied as a directive.
   */
  method ApplyKeyValue(fs: FileSystem, repos: seq<Repo>, t: string, ghost recs: seq<RepoRecord>)
    returns (err: Option<ParseError>, ghost recs': seq<RepoRecord>)
    requires Mirrors(repos, recs) && Distinct(repos)
    modifies if repos == [] then {} else {repos[|repos| - 1]}
    ensures Agrees(DirectiveOf(fs, State(recs, false), t), err, State(recs', false))
    ensures err.None? ==> Mirrors(repos, recs')
  {
    var kv := KeyValue(t);
    if kv.None? {
      return None, recs;
    }
    var (key, val) := kv.value;
    err, recs' := Directive(fs, repos, key, val, recs);
  }

  /**
   * update.c:211-214: a `Server` key grows the most recent repository by
   * one server, an `Include` key by the servers of the named file; other
   * keys change nothing.
   */
  method Directive(fs: FileSystem, repos: seq<Repo>, key: string, val: string, ghost recs: seq<RepoRecord>)
    returns (err: Option<ParseError>, ghost recs': seq<RepoRecord>)
    requires Mirrors(repos, recs) && Distinct(repos)
    modifies if repos == [] then {} else {repos[|repos| - 1]}
    ensures Agrees(ApplyDirective(fs, State(recs, false), key, val), err, State(recs', false))
    ensures err.None? ==> Mirrors(repos, recs')
  {
    recs' := recs;
    if key != "Server" && key != "Include" {
      return None, recs';
    }
    if repos == [] {
      return Some(DirectiveBeforeSection(key)), recs';
    }
    var last := repos[|repos| - 1];
    ghost var added: seq<string>;
    if key == "Server" {
      last.AddServer(val);
      err, added := None, [val];
    } else {
      err, added := IncludeDirective(fs, last, val);
    }
    DirectiveOutcome(fs, recs, key, val, err, added);
    if err.None? {
      recs' := AppendServers(State(recs, false), added).repos;
      forall k | 0 <= k < |repos|
        ensures repos[k].Record() == recs'[k]
      {
        if k < |repos| - 1 {
          assert repos[k] != last && recs'[k] == recs'[..|repos| - 1][k];
        }
      }
    }
  }

  /**
   * A `Server` or `Include` directive in a section grows the last
   * repository by the servers it names, or fails with the include file's
   * error.
   */
  lemma DirectiveOutcome(fs: FileSystem, recs: seq<RepoRecord>, key: string, val: string,
                         err: Option<ParseError>, added: seq<string>)
    requires recs != [] && (key == "Server" || key == "Include")
    requires key == "Server" ==> err == None && added == [val]
    requires key != "Server" && IncludeFile(fs, val).Err? ==> err == Some(IncludeFile(fs, val).error)
    requires key != "Server" && IncludeFile(fs, val).Ok? ==> err == None && added == IncludeFile(fs, val).value
    ensures err.Some? ==> ApplyDirective(fs, State(recs, false), key, val) == Err(err.value)
    ensures err.None? ==>
              ApplyDirective(fs, State(recs, false), key, val) == Ok(AppendServers(State(recs, false), added))
  {
    if key != "Server" && val !in fs {
      AppendNothing(State(recs, false));
    }
  }

  /** The servers an `Include = val` directive adds: none when the file cannot be opened. */
  function IncludeFile(fs: FileSystem, path: string): Result<seq<string>, ParseError> {
    if path !in fs then Ok([]) else IncludeServers(path, fs[path])
  }

  /**
   * update.c:213-214: `Include = val` appends the servers of file `val` to
   * the repository; an unreadable file adds nothing, a malformed one is an
   * error.
   */
  method IncludeDirective(fs: FileSystem, repo: Repo, path: string) returns (err: Option<ParseError>, ghost added: seq<string>)
    modifies repo
    ensures IncludeFile(fs, path).Err? ==> err == Some(IncludeFile(fs, path).error)
    ensures IncludeFile(fs, path).Ok? ==> err == None && added == IncludeFile(fs, path).value
    ensures err.None? ==> repo.servers == old(repo.servers) + added
  {
    var status := AddServersFromInclude(repo, fs, path);
    err, added := None, [];
    if status == IncludeMalformed {
      err := Some(IncludeServers(path, fs[path]).error);
    } else if status == IncludeOk {
      added := IncludeServers(path, fs[path]).value;
    } else {
      assert repo.servers == old(repo.servers) + [];
    }
  }

  /**
   * A header line's `key = value` reading cannot be a directive: its key
   * starts with `[`, so the fall-through at update.c:207 changes nothing.
   */
  lemma HeaderIsNoDirective(fs: FileSystem, st: State, t: string)
    requires IsHeader(t)
    ensures DirectiveOf(fs, st, t) == Ok(st)
  {
    match IndexOf(t, '=')
    case None =>
    case Some(i) =>
      assert i > 0;
      TrimKeepsFirst(t[..i]);
      var key := Trim(t[..i]);
      assert key[0] == '[';
      assert key != "Server" && key != "Include";
  }

  /** A line that is neither blank nor a header is read as a possible `key = value` line. */
  lemma StepOnPair(fs: FileSystem, st: State, line: string)
    requires Normalize(line) != [] && !IsHeader(Normalize(line))
    ensures st.inOptions ==> Step(fs, st, Lex(line)) == Ok(st)
    ensures !st.inOptions ==> Step(fs, st, Lex(line)) == DirectiveOf(fs, st, Normalize(line))
  {
    var t := Normalize(line);
    match KeyValue(t)
    case None =>
      assert Lex(line) == Plain;
    case Some((key, val)) =>
      assert Lex(line) == Pair(key, val);
  }

  /** repo_new for a section header, appended to the repositories found so far. */
  method OpenSection(repos: seq<Repo>, name: string, ghost recs: seq<RepoRecord>)
    returns (repos': seq<Repo>, ghost recs': seq<RepoRecord>)
    requires Mirrors(repos, recs) && Distinct(repos)
    ensures recs' == recs + [RepoRecord(name, [])]
    ensures Mirrors(repos', recs') && Distinct(repos')
    ensures |repos'| == |repos| + 1 && repos'[..|repos|] == repos && fresh(repos'[|repos|])
  {
    var r := new Repo(name);
    repos' := repos + [r];
    recs' := recs + [r.Record()];
    assert repos'[..|repos|] == repos;
  }

  /**
   * A section header line (update.c:189-200): `[options]` enters options
   * mode; any other name opens a new repository, leaves options mode and
   * falls through to the `key = value` check, which finds nothing to do.
   */
  method HeaderLine(fs: FileSystem, repos: seq<Repo>, t: string, ghost recs: seq<RepoRecord>)
    returns (err: Option<ParseError>, repos': seq<Repo>, inOptions': bool, ghost recs': seq<RepoRecord>)
    requires IsHeader(t)
    requires Mirrors(repos, recs) && Distinct(repos)
    ensures forall inOptions :: Agrees(Step(fs, State(recs, inOptions), Section(SectionName(t))), err, State(recs', inOptions'))
    ensures err.None? ==> Mirrors(repos', recs') && Distinct(repos')
    ensures |repos| <= |repos'| <= |repos| + 1 && repos'[..|repos|] == repos
    ensures forall k :: |repos| <= k < |repos'| ==> fresh(repos'[k])
  {
    var section := SectionName(t);
    if section == "options" {
      return None, repos, true, recs;
    }
    repos', recs' := OpenSection(repos, section, recs);
    HeaderIsNoDirective(fs, State(recs', false), t);
    err, recs' := ApplyKeyValue(fs, repos', t, recs');
    inOptions' := false;
  }

  /** One pass of the loop in find_active_repos (update.c:182-216). */
  method ProcessLine(fs: FileSystem, repos: seq<Repo>, inOptions: bool, line: string, ghost kind: LineKind, ghost recs: seq<RepoRecord>)
    returns (err: Option<ParseError>, repos': seq<Repo>, inOptions': bool, ghost recs': seq<RepoRecord>)
    requires kind == Lex(line)
    requires Mirrors(repos, recs) && Distinct(repos)
    modifies if repos == [] then {} else {repos[|repos| - 1]}
    ensures Agrees(Step(fs, State(recs, inOptions), kind), err, State(recs', inOptions'))
    ensures err.None? ==> Mirrors(repos', recs') && Distinct(repos')
    ensures |repos| <= |repos'| <= |repos| + 1 && repos'[..|repos|] == repos
    ensures forall k :: |repos| <= k < |repos'| ==> fresh(repos'[k])
  {
    var t := Normalize(line);
    if t == [] {
      assert kind == Blank;
      return None, repos, inOptions, recs;
    }
    if IsHeader(t) {
      assert kind == Section(SectionName(t));
      err, repos', inOptions', recs' := HeaderLine(fs, repos, t, recs);
      return;
    }
    StepOnPair(fs, State(recs, inOptions), line);
    if inOptions {
      return None, repos, inOptions, recs;
    }
    err, recs' := ApplyKeyValue(fs, repos, t, recs);
    repos', inOptions' := repos, false;
    assert repos'[..|repos|] == repos;
  }

  /**
   * One line of the loop, as ProcessLine reports it: an error ends the
   * parse with that error, otherwise the parse goes on from the new state.
   */
  lemma ParseStep(fs: FileSystem, st: State, ks: seq<LineKind>, i: nat, err: Option<ParseError>, st': State)
    requires i < |ks| && Agrees(Step(fs, st, ks[i]), err, st')
    ensures err.Some? ==> ParseFrom(fs, st, ks[i..]) == Err(err.value)
    ensures err.None? ==> ParseFrom(fs, st, ks[i..]) == ParseFrom(fs, st', ks[i + 1..])
  {
    assert ks[i..][0] == ks[i];
    assert ks[i..][1..] == ks[i + 1..];
  }

  /**
   * find_active_repos: reads the configuration file line by line and
   * returns its repositories, or the reason there are none.
   */
  method FindActiveRepos(fs: FileSystem, path: string) returns (res: Result<seq<Repo>, ParseError>)
    ensures res.Err? ==> ActiveRepos(fs, path) == Err(res.error)
    ensures res.Ok? ==> ActiveRepos(fs, path).Ok? && Mirrors(res.value, ActiveRepos(fs, path).value)
    ensures res.Ok? ==> Distinct(res.value) && forall k :: 0 <= k < |res.value| ==> fresh(res.value[k])
  {
    if path !in fs {
      return Err(ConfigUnreadable(path));
    }
    res := ParseLines(fs, fs[path]);
  }

  /** The loop of find_active_repos over the lines of the opened file (update.c:181-217). */
  method ParseLines(fs: FileSystem, lines: seq<string>) returns (res: Result<seq<Repo>, ParseError>)
    ensures res.Err? ==> ParseFrom(fs, Initial, LexAll(lines)) == Err(res.error)
    ensures res.Ok? ==>
              ParseFrom(fs, Initial, LexAll(lines)).Ok? &&
              Mirrors(res.value, ParseFrom(fs, Initial, LexAll(lines)).value.repos)
    ensures res.Ok? ==> Distinct(res.value) && forall k :: 0 <= k < |res.value| ==> fresh(res.value[k])
  {
    ghost var ks := LexAll(lines);
    var repos: seq<Repo> := [];
    var inOptions := false;
    ghost var recs: seq<RepoRecord> := [];
    var i := 0;
    assert ks[i..] == ks;
    while i < |lines|
      invariant 0 <= i <= |lines|
      invariant Distinct(repos) && forall k :: 0 <= k < |repos| ==> fresh(repos[k])
      invariant Mirrors(repos, recs)
      invariant ParseFrom(fs, Initial, ks) == ParseFrom(fs, State(recs, inOptions), ks[i..])
    {
      ghost var st := State(recs, inOptions);
      LexAllAt(lines, i);
      var err, repos', inOptions';
      ghost var recs';
      err, repos', inOptions', recs' := ProcessLine(fs, repos, inOptions, lines[i], ks[i], recs);
      ParseStep(fs, st, ks, i, err, State(recs', inOptions'));
      if err.Some? {
        return Err(err.value);
      }
      assert forall k :: 0 <= k < |repos| ==> repos'[k] == repos[k];
      repos, inOptions, recs := repos', inOptions', recs';
      i := i + 1;
    }
    assert ks[i..] == [];
    return Ok(repos);
  }

  // ----- Properties of the parser -----

  /** The names of the repository sections among the lines, in file order. */
  function RepoSections(ks: seq<LineKind>): seq<string> {
    if ks == [] then []
    else if ks[0].Section? && ks[0].name != "options" then [ks[0].name] + RepoSections(ks[1..])
    else RepoSections(ks[1..])
  }

  function Names(repos: seq<RepoRecord>): (ns: seq<string>)
    ensures |ns| == |repos|
    ensures forall k :: 0 <= k < |repos| ==> ns[k] == repos[k].name
  {
    seq(|repos|, k requires 0 <= k < |repos| => repos[k].name)
  }

  predicate NoSection(ks: seq<LineKind>) {
    forall k :: 0 <= k < |ks| ==> !ks[k].Section?
  }

  /** Growing the most recent repository keeps every name. */
  lemma AppendServersKeepsNames(st: State, vs: seq<string>)
    requires st.repos != []
    ensures Names(AppendServers(st, vs).repos) == Names(st.repos)
  {
    var st' := AppendServers(st, vs);
    var n := |st.repos|;
    forall k | 0 <= k < n
      ensures st'.repos[k].name == st.repos[k].name
    {
      if k < n - 1 {
        assert st'.repos[k] == st'.repos[..n - 1][k];
        assert st.repos[k] == st.repos[..n - 1][k];
      }
    }
  }

  /** The names a line adds: its own when it opens a repository section. */
  function NewSections(line: LineKind): seq<string> {
    if line.Section? && line.name != "options" then [line.name] else []
  }

  /** A step never renames or reorders repositories; a section header adds one. */
  lemma StepNames(fs: FileSystem, st: State, line: LineKind)
    requires Step(fs, st, line).Ok?
    ensures Names(Step(fs, st, line).value.repos) == Names(st.repos) + NewSections(line)
  {
    var st' := Step(fs, st, line).value;
    match line
    case Section(name) =>
      if name != "options" {
        assert Names(st'.repos) == Names(st.repos) + [name];
      } else {
        assert Names(st.repos) + [] == Names(st.repos);
      }
    case Pair(key, val) =>
      assert Names(st.repos) + [] == Names(st.repos);
      if !st.inOptions && st' != st {
        assert st.repos != [];
        if key == "Server" {
          AppendServersKeepsNames(st, [val]);
        } else {
          AppendServersKeepsNames(st, IncludeServers(val, fs[val]).value);
        }
      }
    case _ =>
      assert Names(st.repos) + [] == Names(st.repos);
  }

  /**
   * The repositories found are the non-`options` sections, one each, in
   * the order the file declares them (update.c:189-200).
   */
  lemma {:induction false} ParseNames(fs: FileSystem, st: State, ks: seq<LineKind>)
    requires ParseFrom(fs, st, ks).Ok?
    ensures Names(ParseFrom(fs, st, ks).value.repos) == Names(st.repos) + RepoSections(ks)
    decreases |ks|
  {
    if ks == [] {
      assert Names(st.repos) + [] == Names(st.repos);
    } else {
      var st' := Step(fs, st, ks[0]).value;
      assert ParseFrom(fs, st, ks) == ParseFrom(fs, st', ks[1..]);
      assert RepoSections(ks) == NewSections(ks[0]) + RepoSections(ks[1..]);
      StepNames(fs, st, ks[0]);
      ParseNames(fs, st', ks[1..]);
      assert Names(st.repos) + NewSections(ks[0]) + RepoSections(ks[1..])
          == Names(st.repos) + RepoSections(ks);
    }
  }

  /** find_active_repos returns one repository per non-`options` section, in order. */
  lemma ActiveRepoNames(fs: FileSystem, path: string)
    requires ActiveRepos(fs, path).Ok?
    ensures Names(ActiveRepos(fs, path).value) == RepoSections(LexAll(fs[path]))
  {
    ParseNames(fs, Initial, LexAll(fs[path]));
    assert Names([]) == [];
  }

  /** `[options]` creates no repository and enters options mode (update.c:192-194). */
  lemma OptionsHeaderStep(fs: FileSystem, st: State)
    ensures Step(fs, st, Section("options")) == Ok(State(st.repos, true))
  {
  }

  /**
   * In options mode every line that is not a section header is ignored,
   * `Server` and `Include` lines included (update.c:203-205); the next
   * non-`options` header leaves the mode (update.c:196).
   */
  lemma {:induction false} OptionsModeSkips(fs: FileSystem, st: State, body: seq<LineKind>, rest: seq<LineKind>)
    requires st.inOptions && NoSection(body)
    ensures ParseFrom(fs, st, body + rest) == ParseFrom(fs, st, rest)
  {
    if body != [] {
      assert (body + rest)[0] == body[0];
      assert Step(fs, st, body[0]) == Ok(st);
      assert (body + rest)[1..] == body[1..] + rest;
      OptionsModeSkips(fs, st, body[1..], rest);
    } else {
      assert body + rest == rest;
    }
  }

  /**
   * Outside options mode, a line whose key is exactly `Server` appends its
   * value to the most recent repository and changes nothing else
   * (update.c:211-212, 68-81).
   */
  lemma ServerLineStep(fs: FileSystem, st: State, v: string)
    requires !st.inOptions && st.repos != []
    ensures Step(fs, st, Pair("Server", v)).Ok?
    ensures var st' := Step(fs, st, Pair("Server", v)).value;
      |st'.repos| == |st.repos| && !st'.inOptions &&
      st'.repos[..|st.repos| - 1] == st.repos[..|st.repos| - 1] &&
      Last(st'.repos) == RepoRecord(Last(st.repos).name, Last(st.repos).servers + [v])
  {
  }

  /** The servers a non-header line adds to the current repository. */
  function Contribution(fs: FileSystem, line: LineKind): Result<seq<string>, ParseError> {
    match line
    case Pair(key, val) =>
      if key == "Server" then Ok([val])
      else if key == "Include" && val in fs then IncludeServers(val, fs[val])
      else Ok([])
    case _ => Ok([])
  }

  /** The servers a run of non-header lines adds, in file order. */
  function Contributions(fs: FileSystem, ks: seq<LineKind>): Result<seq<string>, ParseError> {
    if ks == [] then Ok([])
    else match Contribution(fs, ks[0])
      case Err(e) => Err(e)
      case Ok(vs) => Prepend(vs, Contributions(fs, ks[1..]))
  }

  lemma AppendServersTwice(st: State, a: seq<string>, b: seq<string>)
    requires st.repos != []
    ensures AppendServers(AppendServers(st, a), b) == AppendServers(st, a + b)
  {
    var n := |st.repos|;
    assert AppendServers(AppendServers(st, a), b).repos[..n - 1] == st.repos[..n - 1];
    assert Last(st.repos).servers + a + b == Last(st.repos).servers + (a + b);
  }

  lemma AppendNothing(st: State)
    requires st.repos != []
    ensures AppendServers(st, []) == st
  {
    var n := |st.repos|;
    assert Last(st.repos).servers + [] == Last(st.repos).servers;
    assert st.repos[..n - 1] + [Last(st.repos)] == st.repos;
  }

  /**
   * Inside a repository section, the parser appends to that repository the
   * concatenation, in file order, of every direct `Server` value and every
   * server of every readable `Include` file.
   */
  lemma {:induction false} SectionBodyServers(fs: FileSystem, st: State, body: seq<LineKind>)
    requires !st.inOptions && st.repos != [] && NoSection(body)
    ensures ParseFrom(fs, st, body) == match Contributions(fs, body)
      case Err(e) => Err(e)
      case Ok(vs) => Ok(AppendServers(st, vs))
    decreases |body|
  {
    if body == [] {
      AppendNothing(st);
    } else {
      match Contribution(fs, body[0])
      case Err(e) =>
        assert Step(fs, st, body[0]) == Err(e);
      case Ok(vs) =>
        var st' := AppendServers(st, vs);
        if vs == [] {
          AppendNothing(st);
        }
        assert Step(fs, st, body[0]) == Ok(st');
        SectionBodyServers(fs, st', body[1..]);
        match Contributions(fs, body[1..])
        case Err(e) =>
        case Ok(ws) =>
          AppendServersTwice(st, vs, ws);
    }
  }

  /** Running the loop over two runs of lines is running it over the first, then the second. */
  lemma {:induction false} ParseFromAppend(fs: FileSystem, st: State, a: seq<LineKind>, b: seq<LineKind>)
    ensures ParseFrom(fs, st, a).Err? ==> ParseFrom(fs, st, a + b) == ParseFrom(fs, st, a)
    ensures ParseFrom(fs, st, a).Ok? ==> ParseFrom(fs, st, a + b) == ParseFrom(fs, ParseFrom(fs, st, a).value, b)
    decreases |a|
  {
    if a == [] {
      assert a + b == b;
    } else {
      assert (a + b)[0] == a[0];
      assert (a + b)[1..] == a[1..] + b;
      if Step(fs, st, a[0]).Ok? {
        ParseFromAppend(fs, Step(fs, st, a[0]).value, a[1..], b);
      }
    }
  }

  /** A section alone: one new repository named by its header, holding the section's contributions. */
  lemma SectionAlone(fs: FileSystem, st: State, name: string, body: seq<LineKind>)
    requires name != "options" && NoSection(body)
    ensures ParseFrom(fs, st, [Section(name)] + body) == match Contributions(fs, body)
      case Err(e) => Err(e)
      case Ok(vs) => Ok(State(st.repos + [RepoRecord(name, vs)], false))
  {
    var st1 := State(st.repos + [RepoRecord(name, [])], false);
    assert ([Section(name)] + body)[0] == Section(name);
    assert ([Section(name)] + body)[1..] == body;
    SectionBodyServers(fs, st1, body);
    if Contributions(fs, body).Ok? {
      var vs := Contributions(fs, body).value;
      assert [] + vs == vs;
      assert st1.repos[..|st.repos|] == st.repos;
    }
  }

  /**
   * A repository section, its header followed by its other lines, yields
   * one new repository named by the header whose servers are the section's
   * contributions in file order; the lines after it then run from there.
   */
  lemma SectionRecord(fs: FileSystem, st: State, name: string, body: seq<LineKind>, rest: seq<LineKind>)
    requires name != "options" && NoSection(body)
    ensures Contributions(fs, body).Err? ==>
              ParseFrom(fs, st, [Section(name)] + body + rest) == Err(Contributions(fs, body).error)
    ensures Contributions(fs, body).Ok? ==>
              ParseFrom(fs, st, [Section(name)] + body + rest) ==
                ParseFrom(fs, State(st.repos + [RepoRecord(name, Contributions(fs, body).value)], false), rest)
  {
    SectionAlone(fs, st, name, body);
    ParseFromAppend(fs, st, [Section(name)] + body, rest);
  }

  /** The `[options]` section with its lines adds nothing, whatever follows it. */
  lemma OptionsSection(fs: FileSystem, st: State, body: seq<LineKind>, rest: seq<LineKind>)
    requires NoSection(body)
    ensures ParseFrom(fs, st, [Section("options")] + body + rest) == ParseFrom(fs, State(st.repos, true), rest)
  {
    var t := [Section("options")] + body + rest;
    assert t[0] == Section("options");
    assert t[1..] == body + rest;
    OptionsModeSkips(fs, State(st.repos, true), body, rest);
  }

  /** A section of the configuration file: its header's name and the lines up to the next header. */
  datatype Block = Block(name: string, body: seq<LineKind>)

  /** The lines of consecutive sections. */
  function Flatten(bs: seq<Block>): seq<LineKind> {
    if bs == [] then [] else [Section(bs[0].name)] + bs[0].body + Flatten(bs[1..])
  }

  /** Each section's lines stop at the next header. */
  predicate WellFormed(bs: seq<Block>) {
    forall i :: 0 <= i < |bs| ==> NoSection(bs[i].body)
  }

  /** The repository sections, `[options]` left out. */
  function RepoBlocks(bs: seq<Block>): seq<Block> {
    if bs == [] then []
    else if bs[0].name == "options" then RepoBlocks(bs[1..])
    else [bs[0]] + RepoBlocks(bs[1..])
  }

  /**
   * The repositories a run of sections yields: one per repository section,
   * named by its header, holding its contributions; the first malformed
   * include file is the error.
   */
  function Records(fs: FileSystem, bs: seq<Block>): Result<seq<RepoRecord>, ParseError> {
    if bs == [] then Ok([])
    else if bs[0].name == "options" then Records(fs, bs[1..])
    else if Contributions(fs, bs[0].body).Err? then Err(Contributions(fs, bs[0].body).error)
    else if Records(fs, bs[1..]).Err? then Records(fs, bs[1..])
    else Ok([RepoRecord(bs[0].name, Contributions(fs, bs[0].body).value)] + Records(fs, bs[1..]).value)
  }

  /** The loop over whole sections appends exactly their records, or fails with the same error. */
  lemma {:induction false} ParseSections(fs: FileSystem, st: State, bs: seq<Block>)
    requires WellFormed(bs)
    ensures Records(fs, bs).Err? ==> ParseFrom(fs, st, Flatten(bs)) == Err(Records(fs, bs).error)
    ensures Records(fs, bs).Ok? ==>
              ParseFrom(fs, st, Flatten(bs)).Ok? &&
              ParseFrom(fs, st, Flatten(bs)).value.repos == st.repos + Records(fs, bs).value
    decreases |bs|
  {
    if bs == [] {
      assert st.repos + [] == st.repos;
    } else {
      var b := bs[0];
      var rest := Flatten(bs[1..]);
      assert WellFormed(bs[1..]) by {
        forall i | 0 <= i < |bs| - 1
          ensures NoSection(bs[1..][i].body)
        {
          assert bs[1..][i] == bs[i + 1];
        }
      }
      assert NoSection(b.body);
      if b.name == "options" {
        OptionsSection(fs, st, b.body, rest);
        ParseSections(fs, State(st.repos, true), bs[1..]);
      } else {
        SectionRecord(fs, st, b.name, b.body, rest);
        if Contributions(fs, b.body).Ok? {
          var vs := Contributions(fs, b.body).value;
          var s := State(st.repos + [RepoRecord(b.name, vs)], false);
          ParseSections(fs, s, bs[1..]);
          if Records(fs, bs[1..]).Ok? {
            var rs := Records(fs, bs[1..]).value;
            assert s.repos + rs == st.repos + ([RepoRecord(b.name, vs)] + rs);
          }
        }
      }
    }
  }

  /** One step of `Records` and `RepoBlocks`. */
  lemma RecordsUnfold(fs: FileSystem, bs: seq<Block>)
    requires bs != []
    ensures bs[0].name == "options" ==>
              Records(fs, bs) == Records(fs, bs[1..]) && RepoBlocks(bs) == RepoBlocks(bs[1..])
    ensures bs[0].name != "options" ==>
              RepoBlocks(bs) == [bs[0]] + RepoBlocks(bs[1..]) &&
              (Records(fs, bs).Ok? <==> Contributions(fs, bs[0].body).Ok? && Records(fs, bs[1..]).Ok?)
  {
  }

  /** Every section of `[b] + tail` has a well-formed include exactly when `b` and every section of `tail` do. */
  lemma AllIncludesOkCons(fs: FileSystem, b: Block, tail: seq<Block>)
    ensures (forall k :: 0 <= k < |[b] + tail| ==> Contributions(fs, ([b] + tail)[k].body).Ok?) <==>
            Contributions(fs, b.body).Ok? && forall k :: 0 <= k < |tail| ==> Contributions(fs, tail[k].body).Ok?
  {
    var rb := [b] + tail;
    if Contributions(fs, b.body).Ok? && forall k :: 0 <= k < |tail| ==> Contributions(fs, tail[k].body).Ok? {
      forall k | 0 <= k < |rb|
        ensures Contributions(fs, rb[k].body).Ok?
      {
        if k > 0 {
          assert rb[k] == tail[k - 1];
        }
      }
    }
    if forall k :: 0 <= k < |rb| ==> Contributions(fs, rb[k].body).Ok? {
      assert rb[0] == b;
      forall k | 0 <= k < |tail|
        ensures Contributions(fs, tail[k].body).Ok?
      {
        assert rb[k + 1] == tail[k];
      }
    }
  }

  /** The run of sections fails exactly when some repository section's include file is malformed. */
  lemma {:induction false} RecordsOk(fs: FileSystem, bs: seq<Block>)
    ensures Records(fs, bs).Ok? <==>
              forall k :: 0 <= k < |RepoBlocks(bs)| ==> Contributions(fs, RepoBlocks(bs)[k].body).Ok?
    decreases |bs|
  {
    if bs != [] {
      RecordsOk(fs, bs[1..]);
      RecordsUnfold(fs, bs);
      if bs[0].name != "options" {
        AllIncludesOkCons(fs, bs[0], RepoBlocks(bs[1..]));
      }
    }
  }

  /** The records, position by position: the k-th is the k-th repository section's. */
  lemma {:induction false} RecordsAt(fs: FileSystem, bs: seq<Block>)
    requires Records(fs, bs).Ok?
    ensures |Records(fs, bs).value| == |RepoBlocks(bs)|
    ensures forall k :: 0 <= k < |RepoBlocks(bs)| ==>
              Contributions(fs, RepoBlocks(bs)[k].body).Ok? &&
              Records(fs, bs).value[k] ==
                RepoRecord(RepoBlocks(bs)[k].name, Contributions(fs, RepoBlocks(bs)[k].body).value)
    decreases |bs|
  {
    if bs != [] {
      RecordsAt(fs, bs[1..]);
      if bs[0].name != "options" {
        var rb := RepoBlocks(bs);
        var tail := RepoBlocks(bs[1..]);
        var rs := Records(fs, bs).value;
        assert rb == [bs[0]] + tail;
        assert rs == [RepoRecord(bs[0].name, Contributions(fs, bs[0].body).value)] + Records(fs, bs[1..]).value;
        forall k | 0 < k < |rb|
          ensures Contributions(fs, rb[k].body).Ok? && rs[k] == RepoRecord(rb[k].name, Contributions(fs, rb[k].body).value)
        {
          assert rb[k] == tail[k - 1];
          assert rs[k] == Records(fs, bs[1..]).value[k - 1];
        }
      }
    }
  }

  /**
   * Lines before the first header that name neither `Server` nor `Include`:
   * update.c skips them.
   */
  predicate Preamble(ks: seq<LineKind>) {
    forall k :: 0 <= k < |ks| ==>
      !ks[k].Section? && !(ks[k].Pair? && (ks[k].key == "Server" || ks[k].key == "Include"))
  }

  /** A preamble changes nothing. */
  lemma {:induction false} PreambleSkipped(fs: FileSystem, st: State, pre: seq<LineKind>, rest: seq<LineKind>)
    requires Preamble(pre)
    ensures ParseFrom(fs, st, pre + rest) == ParseFrom(fs, st, rest)
    decreases |pre|
  {
    if pre == [] {
      assert pre + rest == rest;
    } else {
      assert (pre + rest)[0] == pre[0];
      assert Step(fs, st, pre[0]) == Ok(st);
      assert (pre + rest)[1..] == pre[1..] + rest;
      PreambleSkipped(fs, st, pre[1..], rest);
    }
  }

  /** A `Server` or `Include` line before any header fails the parse (update.c:212, 214 would index before the array). */
  lemma DirectiveBeforeSectionFails(fs: FileSystem, key: string, v: string, rest: seq<LineKind>)
    requires key == "Server" || key == "Include"
    ensures ParseFrom(fs, Initial, [Pair(key, v)] + rest) == Err(DirectiveBeforeSection(key))
  {
    assert ([Pair(key, v)] + rest)[0] == Pair(key, v);
  }

  /**
   * The whole configuration file: after a preamble come the sections, and
   * find_active_repos yields one record per repository section, in file
   * order, holding that section's `Server` values and included servers.
   */
  lemma ActiveReposBySection(fs: FileSystem, path: string, pre: seq<LineKind>, bs: seq<Block>)
    requires path in fs && LexAll(fs[path]) == pre + Flatten(bs)
    requires Preamble(pre) && WellFormed(bs)
    ensures ActiveRepos(fs, path) == Records(fs, bs)
  {
    PreambleSkipped(fs, Initial, pre, Flatten(bs));
    ParseSections(fs, Initial, bs);
    if Records(fs, bs).Ok? {
      assert [] + Records(fs, bs).value == Records(fs, bs).value;
    }
  }

  /**
   * The same, record by record: the configuration file is read without error
   * exactly when no repository section includes a malformed file, and then
   * the k-th active repository is the k-th repository section, named by its
   * header and holding that section's servers.
   */
  lemma ActiveReposRecords(fs: FileSystem, path: string, pre: seq<LineKind>, bs: seq<Block>)
    requires path in fs && LexAll(fs[path]) == pre + Flatten(bs)
    requires Preamble(pre) && WellFormed(bs)
    ensures ActiveRepos(fs, path).Ok? <==>
              forall k :: 0 <= k < |RepoBlocks(bs)| ==> Contributions(fs, RepoBlocks(bs)[k].body).Ok?
    ensures ActiveRepos(fs, path).Ok? ==>
              |ActiveRepos(fs, path).value| == |RepoBlocks(bs)| &&
              forall k :: 0 <= k < |RepoBlocks(bs)| ==>
                ActiveRepos(fs, path).value[k] ==
                  RepoRecord(RepoBlocks(bs)[k].name, Contributions(fs, RepoBlocks(bs)[k].body).value)
  {
    ActiveReposBySection(fs, path, pre, bs);
    RecordsOk(fs, bs);
    if Records(fs, bs).Ok? {
      RecordsAt(fs, bs);
    }
  }

  /** An include file's servers are the concatenation of its parts' servers. */
  lemma {:induction false} CollectServersAppend(path: string, a: seq<IncludeKind>, b: seq<IncludeKind>)
    requires CollectServers(path, a).Ok? && CollectServers(path, b).Ok?
    ensures CollectServers(path, a + b) == Ok(CollectServers(path, a).value + CollectServers(path, b).value)
  {
    if a == [] {
      assert a + b == b;
      assert [] + CollectServers(path, b).value == CollectServers(path, b).value;
    } else {
      assert (a + b)[0] == a[0];
      assert (a + b)[1..] == a[1..] + b;
      CollectServersAppend(path, a[1..], b);
      if a[0].ServerValue? {
        assert [a[0].value] + (CollectServers(path, a[1..]).value + CollectServers(path, b).value)
            == ([a[0].value] + CollectServers(path, a[1..]).value) + CollectServers(path, b).value;
      }
    }
  }

  /**
   * Include files match `Server` as a prefix, the main file as an exact
   * key (update.c:152 against update.c:211): a line such as `ServerList = v`
   * adds `v` from an include file and nothing from the main file.
   */
  lemma PrefixMatchOnlyInInclude(fs: FileSystem, st: State, line: string, key: string, v: string)
    requires "Server" <= Normalize(line)
    requires Lex(line) == Pair(key, v) && key != "Server" && key != "Include"
    ensures IncludeLex(line) == ServerValue(v)
    ensures Step(fs, st, Lex(line)) == Ok(st)
  {
  }
}
