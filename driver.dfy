/**
 * nosr_update (update.c:349-390): checks that the cache directory is
 * writable, initialises the package library, then downloads and
 * transcodes every active repository in turn, keeping the code of the
 * last repository that failed.
 */
module Driver {
  import opened Base
  import opened Config
  import opened Fetch
  import opened Transcode

  /**
   * The world nosr_update runs in: access(2) on the cache directory,
   * alpm_initialize, the machine name from uname(2), the download oracle,
   * and the archive environment the transcoder meets for each repository
   * name.
   */
  datatype RunEnv = RunEnv(
    cacheWritable: bool,
    alpmReady: bool,
    arch: string,
    fetch: string -> bool,
    archive: string -> ArchiveEnv)

  /** What happened to one repository: the download code and, when it succeeded, the transcode code. */
  datatype RepoRun = RepoRun(download: int, transcode: Option<int>)

  /** The code a repository contributes: the transcode code if one ran, else the download code. */
  function Code(run: RepoRun): int {
    if run.transcode.Some? then run.transcode.value else run.download
  }

  function Codes(runs: seq<RepoRun>): (cs: seq<int>)
    ensures |cs| == |runs|
    ensures forall k :: 0 <= k < |runs| ==> cs[k] == Code(runs[k])
  {
    seq(|runs|, k requires 0 <= k < |runs| => Code(runs[k]))
  }

  /** The run of one repository: the transcoder runs only after a successful download. */
  function ExpectedRun(repo: RepoRecord, env: RunEnv): RepoRun {
    var d := DownloadCode(repo, env.arch, env.fetch);
    if d == 0 then RepoRun(d, Some(TranscodeOutcome(env.archive(repo.name)).ret))
    else RepoRun(d, None)
  }

  /** The runs of the repositories, in order. */
  function ExpectedRuns(repos: seq<RepoRecord>, env: RunEnv): seq<RepoRun> {
    if repos == [] then []
    else ExpectedRuns(repos[..|repos| - 1], env) + [ExpectedRun(repos[|repos| - 1], env)]
  }

  lemma ExpectedRunsNext(repos: seq<RepoRecord>, env: RunEnv, i: nat)
    requires i < |repos|
    ensures ExpectedRuns(repos[..i + 1], env) == ExpectedRuns(repos[..i], env) + [ExpectedRun(repos[i], env)]
  {
    assert repos[..i + 1][..i] == repos[..i];
  }

  lemma CodesNext(runs: seq<RepoRun>, run: RepoRun)
    ensures Codes(runs + [run]) == Codes(runs) + [Code(run)]
  {
  }

  /** The k-th run is the run of the k-th repository. */
  lemma {:induction false} ExpectedRunsAt(repos: seq<RepoRecord>, env: RunEnv)
    ensures |ExpectedRuns(repos, env)| == |repos|
    ensures forall k :: 0 <= k < |repos| ==> ExpectedRuns(repos, env)[k] == ExpectedRun(repos[k], env)
  {
    if repos != [] {
      var init := repos[..|repos| - 1];
      ExpectedRunsAt(init, env);
      assert ExpectedRuns(repos, env) == ExpectedRuns(init, env) + [ExpectedRun(repos[|repos| - 1], env)];
      forall k | 0 <= k < |init|
        ensures ExpectedRuns(repos, env)[k] == ExpectedRun(repos[k], env)
      {
        assert repos[k] == init[k];
      }
    }
  }

  /** The overall result: the last non-zero code, or 0 when there is none. */
  function Aggregate(codes: seq<int>): int {
    if codes == [] then 0
    else if codes[|codes| - 1] != 0 then codes[|codes| - 1]
    else Aggregate(codes[..|codes| - 1])
  }

  /** nosr_update over the active repositories. */
  method NosrUpdate(repos: seq<RepoRecord>, env: RunEnv) returns (ret: int, runs: seq<RepoRun>)
    ensures !env.cacheWritable || !env.alpmReady ==> ret == 1 && runs == []
    ensures env.cacheWritable && env.alpmReady ==>
      runs == ExpectedRuns(repos, env) &&
      ret == Aggregate(Codes(runs)) &&
      (ret == 0 <==> forall k :: 0 <= k < |runs| ==> Code(runs[k]) == 0)
  {
    runs := [];
    if !env.cacheWritable {
      return 1, runs;
    }
    if !env.alpmReady {
      return 1, runs;
    }
    ret := 0;
    var i := 0;
    while i < |repos|
      invariant 0 <= i <= |repos|
      invariant runs == ExpectedRuns(repos[..i], env)
      invariant ret == Aggregate(Codes(runs))
    {
      var run := RunRepo(repos[i], env);
      var r := Code(run);
      if r != 0 {
        ret := r;
      }
      AggregateStep(Codes(runs), r);
      CodesNext(runs, run);
      ExpectedRunsNext(repos, env, i);
      runs := runs + [run];
      i := i + 1;
    }
    assert repos[..i] == repos;
    AggregateZeroIff(Codes(runs));
  }

  /** The body of the loop in nosr_update for one repository (update.c:377-380). */
  method RunRepo(repo: RepoRecord, env: RunEnv) returns (run: RepoRun)
    ensures run == ExpectedRun(repo, env)
  {
    var r, _ := DownloadRepoFiles(repo, env.arch, env.fetch);
    run := RepoRun(r, None);
    if r == 0 {
      var t, _, _ := DecompressRepoFile(env.archive(repo.name));
      run := RepoRun(r, Some(t));
    }
  }

  /** Appending a code: a non-zero one becomes the result, a zero one leaves it. */
  lemma AggregateStep(codes: seq<int>, c: int)
    ensures Aggregate(codes + [c]) == if c != 0 then c else Aggregate(codes)
  {
    assert (codes + [c])[..|codes|] == codes;
  }

  /** The run succeeds exactly when every repository's code is zero. */
  lemma {:induction false} AggregateZeroIff(codes: seq<int>)
    ensures Aggregate(codes) == 0 <==> forall k :: 0 <= k < |codes| ==> codes[k] == 0
  {
    if codes != [] {
      var init := codes[..|codes| - 1];
      AggregateZeroIff(init);
      assert forall k :: 0 <= k < |init| ==> init[k] == codes[k];
    }
  }

  /** A non-zero result is the code of some repository, and every later repository succeeded. */
  lemma {:induction false} AggregateIsLastFailure(codes: seq<int>)
    requires Aggregate(codes) != 0
    ensures exists k :: 0 <= k < |codes| && codes[k] == Aggregate(codes) &&
                        (forall j :: k < j < |codes| ==> codes[j] == 0)
  {
    var n := |codes| - 1;
    if codes[n] != 0 {
      assert codes[n] == Aggregate(codes);
    } else {
      var init := codes[..n];
      AggregateIsLastFailure(init);
      var k :| 0 <= k < |init| && init[k] == Aggregate(init) && forall j :: k < j < |init| ==> init[j] == 0;
      assert codes[k] == Aggregate(codes) && forall j :: k < j < |codes| ==> codes[j] == 0;
    }
  }

  /**
   * A repository without mirrors makes the whole update fail: its download
   * code is 1, so nosr_update cannot return 0 (the code it returns is that of
   * the last repository that failed, which may be a later one).
   */
  lemma NoMirrorsFails(repos: seq<RepoRecord>, env: RunEnv, i: nat)
    requires i < |repos| && repos[i].servers == []
    ensures Aggregate(Codes(ExpectedRuns(repos, env))) != 0
  {
    ExpectedRunsAt(repos, env);
    var codes := Codes(ExpectedRuns(repos, env));
    assert codes[i] == Code(ExpectedRun(repos[i], env)) == 1;
    AggregateZeroIff(codes);
  }
}
