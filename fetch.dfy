/**
 * download_repo_files (update.c:225-263): tries the mirrors of a repository
 * in the order they were declared, removing the cached `<name>.files`
 * before each attempt, and stops at the first successful download.
 *
 * The transfer (alpm_fetch_pkgurl) is an oracle from URL to success; the
 * cached file is a present/absent flag; the side effects are a trace.
 */
module Fetch {
  import opened Config
  import opened Url

  const FilesSuffix := ".files"

  /** unlink_files_dbfile and alpm_fetch_pkgurl, as the loop issues them. */
  datatype Event = Unlink(file: string) | Download(url: string, ok: bool)

  /** The cache file of a repository: `<name>.files` in the cache directory. */
  function CacheFile(repo: RepoRecord): string {
    repo.name + FilesSuffix
  }

  /** The URL of every mirror, in declaration order. */
  function MirrorUrls(repo: RepoRecord, arch: string): (urls: seq<string>)
    ensures |urls| == |repo.servers|
    ensures forall i :: 0 <= i < |urls| ==> urls[i] == PrepareUrl(repo.servers[i], repo.name, arch, FilesSuffix)
  {
    seq(|repo.servers|, i requires 0 <= i < |repo.servers| => PrepareUrl(repo.servers[i], repo.name, arch, FilesSuffix))
  }

  /** The index of the first URL the oracle accepts, or |urls| when none is. */
  function FirstOk(urls: seq<string>, fetch: string -> bool): (k: nat)
    ensures k <= |urls|
    ensures forall j :: 0 <= j < k ==> !fetch(urls[j])
    ensures k < |urls| ==> fetch(urls[k])
  {
    if urls == [] then 0
    else if fetch(urls[0]) then 0
    else 1 + FirstOk(urls[1..], fetch)
  }

  /** The events of trying each URL in turn: remove the cache file, then fetch. */
  function Attempts(file: string, urls: seq<string>, fetch: string -> bool): seq<Event> {
    if urls == [] then []
    else Attempts(file, urls[..|urls| - 1], fetch) + [Unlink(file), Download(urls[|urls| - 1], fetch(urls[|urls| - 1]))]
  }

  /** The URLs download_repo_files tries: up to and including the first that works. */
  function Tried(urls: seq<string>, fetch: string -> bool): seq<string> {
    var k := FirstOk(urls, fetch);
    if k < |urls| then urls[..k + 1] else urls
  }

  /** The return code: 0 when some mirror worked, 1 when all failed or there are none. */
  function DownloadCode(repo: RepoRecord, arch: string, fetch: string -> bool): int {
    if FirstOk(MirrorUrls(repo, arch), fetch) < |repo.servers| then 0 else 1
  }

  /**
   * Whether `<name>.files` exists after a trace of events: an unlink
   * removes it, a successful download creates it, a failed one changes nothing.
   */
  function CacheAfter(cached: bool, events: seq<Event>): bool {
    if events == [] then cached
    else match events[|events| - 1]
      case Unlink(_) => false
      case Download(_, ok) => ok || CacheAfter(cached, events[..|events| - 1])
  }

  /** download_repo_files: the return code and the unlink/download calls it makes. */
  method DownloadRepoFiles(repo: RepoRecord, arch: string, fetch: string -> bool)
    returns (rc: int, events: seq<Event>)
    ensures rc == DownloadCode(repo, arch, fetch)
    ensures events == Attempts(CacheFile(repo), Tried(MirrorUrls(repo, arch), fetch), fetch)
  {
    var urls := MirrorUrls(repo, arch);
    var ok;
    ok, events := TryInOrder(repo.name + FilesSuffix, urls, fetch);
    rc := if ok then 0 else 1;
  }

  /**
   * The loop of download_repo_files over the mirror URLs: remove the cache
   * file, download, and stop at the first success.
   */
  method TryInOrder(file: string, urls: seq<string>, fetch: string -> bool) returns (ok: bool, events: seq<Event>)
    ensures ok <==> FirstOk(urls, fetch) < |urls|
    ensures events == Attempts(file, Tried(urls, fetch), fetch)
  {
    events := [];
    var i := 0;
    while i < |urls|
      invariant 0 <= i <= |urls|
      invariant forall j :: 0 <= j < i ==> !fetch(urls[j])
      invariant events == Attempts(file, urls[..i], fetch)
    {
      var url := urls[i];
      events := events + [Unlink(file)];
      ok := fetch(url);
      events := events + [Download(url, ok)];
      AttemptsNext(file, urls, fetch, i);
      if ok {
        FirstOkIsFirst(urls, fetch, i);
        return true, events;
      }
      i := i + 1;
    }
    FirstOkNone(urls, fetch);
    assert urls[..i] == urls;
    ok := false;
  }

  /** One more attempt extends the trace by an unlink and a download of the next URL. */
  lemma AttemptsNext(file: string, urls: seq<string>, fetch: string -> bool, i: nat)
    requires i < |urls|
    ensures Attempts(file, urls[..i + 1], fetch) ==
      Attempts(file, urls[..i], fetch) + [Unlink(file), Download(urls[i], fetch(urls[i]))]
  {
    assert urls[..i + 1][..i] == urls[..i];
  }

  /** download_repo_files returns 0 exactly when some mirror downloads; 1 otherwise, also with no mirrors. */
  lemma DownloadCodeIff(repo: RepoRecord, arch: string, fetch: string -> bool)
    ensures DownloadCode(repo, arch, fetch) == 0 <==>
      exists j :: 0 <= j < |repo.servers| && fetch(MirrorUrls(repo, arch)[j])
    ensures DownloadCode(repo, arch, fetch) != 0 ==> DownloadCode(repo, arch, fetch) == 1
  {
    var urls := MirrorUrls(repo, arch);
    var k := FirstOk(urls, fetch);
    if k < |urls| {
      assert fetch(urls[k]);
    }
  }

  /**
   * After download_repo_files the cache file exists exactly when the
   * download succeeded; with no mirrors it is left as it was.
   */
  lemma CacheAfterDownload(repo: RepoRecord, arch: string, fetch: string -> bool, cached: bool)
    ensures var events := Attempts(CacheFile(repo), Tried(MirrorUrls(repo, arch), fetch), fetch);
      CacheAfter(cached, events) == if repo.servers == [] then cached else DownloadCode(repo, arch, fetch) == 0
  {
    CacheAfterTried(CacheFile(repo), MirrorUrls(repo, arch), fetch, cached);
  }

  /** The cache file after trying `urls` in order: present exactly when one of them downloaded. */
  lemma CacheAfterTried(file: string, urls: seq<string>, fetch: string -> bool, cached: bool)
    ensures CacheAfter(cached, Attempts(file, Tried(urls, fetch), fetch)) ==
      if urls == [] then cached else FirstOk(urls, fetch) < |urls|
  {
    var t := Tried(urls, fetch);
    TriedStopsAtFirstSuccess(urls, fetch);
    if t != [] {
      var e := Attempts(file, t, fetch);
      assert e[..|e| - 1] == Attempts(file, t[..|t| - 1], fetch) + [Unlink(file)];
      assert CacheAfter(cached, e[..|e| - 1]) == false;
      if FirstOk(urls, fetch) < |urls| {
        assert fetch(urls[FirstOk(urls, fetch)]);
      }
    }
  }

  /** An accepted URL with only rejected URLs before it is the first accepted one. */
  lemma {:induction false} FirstOkIsFirst(urls: seq<string>, fetch: string -> bool, i: nat)
    requires i < |urls| && fetch(urls[i])
    requires forall j :: 0 <= j < i ==> !fetch(urls[j])
    ensures FirstOk(urls, fetch) == i
  {
    if i > 0 {
      FirstOkIsFirst(urls[1..], fetch, i - 1);
    }
  }

  /** With every URL rejected, no URL is accepted. */
  lemma {:induction false} FirstOkNone(urls: seq<string>, fetch: string -> bool)
    requires forall j :: 0 <= j < |urls| ==> !fetch(urls[j])
    ensures FirstOk(urls, fetch) == |urls|
  {
    if urls != [] {
      FirstOkNone(urls[1..], fetch);
    }
  }

  /**
   * The trace alternates: before the n-th download the cache file is
   * removed, and the n-th download is of the n-th URL.
   */
  lemma {:induction false} AttemptsShape(file: string, urls: seq<string>, fetch: string -> bool)
    ensures |Attempts(file, urls, fetch)| == 2 * |urls|
    ensures forall n :: 0 <= n < |urls| ==>
      Attempts(file, urls, fetch)[2 * n] == Unlink(file) &&
      Attempts(file, urls, fetch)[2 * n + 1] == Download(urls[n], fetch(urls[n]))
  {
    if urls != [] {
      var init := urls[..|urls| - 1];
      AttemptsShape(file, init, fetch);
      forall n | 0 <= n < |init|
        ensures Attempts(file, urls, fetch)[2 * n] == Unlink(file)
        ensures Attempts(file, urls, fetch)[2 * n + 1] == Download(urls[n], fetch(urls[n]))
      {
        assert urls[n] == init[n];
      }
    }
  }

  /**
   * Mirrors are tried in order until the first success: every tried URL
   * but the last failed, the last one worked if any did, and the mirrors
   * after it are never tried.
   */
  lemma TriedStopsAtFirstSuccess(urls: seq<string>, fetch: string -> bool)
    ensures Tried(urls, fetch) <= urls
    ensures forall j :: 0 <= j < |Tried(urls, fetch)| - 1 ==> !fetch(Tried(urls, fetch)[j])
    ensures (exists j :: 0 <= j < |urls| && fetch(urls[j])) <==>
      (Tried(urls, fetch) != [] && fetch(Last(Tried(urls, fetch))))
    ensures |Tried(urls, fetch)| < |urls| ==> fetch(Last(Tried(urls, fetch)))
  {
    var k := FirstOk(urls, fetch);
    var t := Tried(urls, fetch);
    if k == |urls| {
      assert t == urls;
    } else {
      assert t[k] == urls[k];
    }
  }
}
