/** The `download_sdp` command: find, across the repositories of the
    registry in registry order, the first version-list entry with a given
    MD5 and download that package. */
module DownloadSdp {
  import opened Wrappers
  import opened Types
  import Env
  import Parsing
  import RapidStore
  import MetadataLocal
  import Seqs

  /** What the search makes of one repository: no match, so go on; the
      first matching descriptor; a version list that cannot be read, which
      ends the search; or a repository URL without a scheme, which panics. */
  datatype Verdict = Skip | Found(sdp: Sdp) | Stop | Abort(failure: Failure)

  function Examine(codecs: Env.Codecs, disk: Env.Disk, root: Path, repo: Repo, md5: string): (v: Verdict)
    ensures v.Abort? <==> RapidStore.GetRepoPath(root, repo).Err?
    ensures v.Abort? ==> v.failure == RapidStore.GetRepoPath(root, repo).error
    ensures RapidStore.GetRepoPath(root, repo).Ok? ==>
      var read := Parsing.ReadRapidFromFile(codecs, disk, RapidStore.GetRepoPath(root, repo).value);
      && (v == Stop <==> read.Err?)
      && (v == Skip <==> read.Ok? && forall k :: 0 <= k < |read.value| ==> read.value[k].md5 != md5)
      && (v.Found? ==>
            read.Ok? &&
            exists k :: 0 <= k < |read.value| && read.value[k] == v.sdp && v.sdp.md5 == md5 &&
              forall j :: 0 <= j < k ==> read.value[j].md5 != md5)
  {
    match RapidStore.GetRepoPath(root, repo)
    case Err(e) => Abort(e)
    case Ok(path) =>
      match Parsing.ReadRapidFromFile(codecs, disk, path)
      case Err(_) => Stop
      case Ok(sdps) =>
        match Seqs.FirstIndex(sdps, (s: Sdp) => s.md5 == md5, 0)
        case None => Skip
        case Some(i) => Found(sdps[i])
  }

  /** The loop over the registry: the first repository that is not
      skipped decides the result. */
  function SearchRepos(codecs: Env.Codecs, disk: Env.Disk, root: Path, repos: seq<Repo>, md5: string): (r: Result<Option<(Repo, Sdp)>, Failure>)
    ensures r.Err? ==> r.error.Panic?
    ensures r.Ok? && r.value.Some? ==> r.value.value.0 in repos && r.value.value.1.md5 == md5
    decreases |repos|
  {
    if |repos| == 0 then Ok(None)
    else
      match Examine(codecs, disk, root, repos[0], md5)
      case Skip => SearchRepos(codecs, disk, root, repos[1..], md5)
      case Found(sdp) => Ok(Some((repos[0], sdp)))
      case Stop => Ok(None)
      case Abort(e) => Err(e)
  }

  /** What a single repository's verdict means for the search. */
  function Decided(repo: Repo, v: Verdict): Result<Option<(Repo, Sdp)>, Failure> {
    match v
    case Skip => Ok(None)
    case Found(sdp) => Ok(Some((repo, sdp)))
    case Stop => Ok(None)
    case Abort(e) => Err(e)
  }

  /** Every repository before `k` is skipped. */
  predicate SkippedBefore(codecs: Env.Codecs, disk: Env.Disk, root: Path, repos: seq<Repo>, md5: string, k: nat)
    requires k <= |repos|
  {
    forall j :: 0 <= j < k ==> Examine(codecs, disk, root, repos[j], md5) == Skip
  }

  /** The search's result is decided by the first repository that is not
      skipped, and is `Ok(None)` when every repository is skipped. */
  lemma {:induction false} SearchDecidedByFirstUnskipped(codecs: Env.Codecs, disk: Env.Disk, root: Path, repos: seq<Repo>, md5: string)
    ensures SkippedBefore(codecs, disk, root, repos, md5, |repos|) ==> SearchRepos(codecs, disk, root, repos, md5) == Ok(None)
    ensures forall k ::
      (0 <= k < |repos| && SkippedBefore(codecs, disk, root, repos, md5, k) && Examine(codecs, disk, root, repos[k], md5) != Skip) ==>
      SearchRepos(codecs, disk, root, repos, md5) == Decided(repos[k], Examine(codecs, disk, root, repos[k], md5))
    decreases |repos|
  {
    if |repos| > 0 {
      var tail := repos[1..];
      SearchDecidedByFirstUnskipped(codecs, disk, root, tail, md5);
      if Examine(codecs, disk, root, repos[0], md5) == Skip {
        if SkippedBefore(codecs, disk, root, repos, md5, |repos|) {
          assert SkippedBefore(codecs, disk, root, tail, md5, |tail|) by {
            forall j | 0 <= j < |tail| ensures Examine(codecs, disk, root, tail[j], md5) == Skip {
              assert tail[j] == repos[j + 1];
            }
          }
        }
        forall k | 0 < k < |repos| && SkippedBefore(codecs, disk, root, repos, md5, k) &&
            Examine(codecs, disk, root, repos[k], md5) != Skip
          ensures SearchRepos(codecs, disk, root, repos, md5) == Decided(repos[k], Examine(codecs, disk, root, repos[k], md5))
        {
          assert tail[k - 1] == repos[k];
          assert SkippedBefore(codecs, disk, root, tail, md5, k - 1) by {
            forall j | 0 <= j < k - 1 ensures Examine(codecs, disk, root, tail[j], md5) == Skip {
              assert tail[j] == repos[j + 1];
            }
          }
        }
      }
    }
  }

  /** The result is one repository's verdict: a found package comes with
      the repository whose version list holds it, and every repository
      before that one was searched without a match. */
  lemma FoundIsFirstMatch(codecs: Env.Codecs, disk: Env.Disk, root: Path, repos: seq<Repo>, md5: string)
    ensures var r := SearchRepos(codecs, disk, root, repos, md5);
      r.Ok? && r.value.Some? ==>
        && r.value.value.1.md5 == md5
        && exists k :: 0 <= k < |repos| && repos[k] == r.value.value.0 &&
             SkippedBefore(codecs, disk, root, repos, md5, k) &&
             Examine(codecs, disk, root, repos[k], md5) == Found(r.value.value.1)
  {
    var r := SearchRepos(codecs, disk, root, repos, md5);
    SearchDecidedByFirstUnskipped(codecs, disk, root, repos, md5);
    if r.Ok? && r.value.Some? {
      var k := FirstUnskipped(codecs, disk, root, repos, md5, 0);
      if k == |repos| {
        assert false;
      }
      var v := Examine(codecs, disk, root, repos[k], md5);
      assert r == Decided(repos[k], v);
      assert v == Found(r.value.value.1) && repos[k] == r.value.value.0;
    }
  }

  /** The first repository at or after `from` that is not skipped, or
      `|repos|` when there is none, given that all before `from` are. */
  lemma {:induction false} FirstUnskipped(codecs: Env.Codecs, disk: Env.Disk, root: Path, repos: seq<Repo>, md5: string, from: nat) returns (k: nat)
    requires from <= |repos| && SkippedBefore(codecs, disk, root, repos, md5, from)
    ensures from <= k <= |repos| && SkippedBefore(codecs, disk, root, repos, md5, k)
    ensures k < |repos| ==> Examine(codecs, disk, root, repos[k], md5) != Skip
    decreases |repos| - from
  {
    if from == |repos| || Examine(codecs, disk, root, repos[from], md5) != Skip {
      k := from;
    } else {
      k := FirstUnskipped(codecs, disk, root, repos, md5, from + 1);
    }
  }

  /** Once a repository is not skipped, the registry entries after it
      are never looked at. */
  lemma LaterReposIgnored(codecs: Env.Codecs, disk: Env.Disk, root: Path, repos: seq<Repo>, rest: seq<Repo>, md5: string, k: nat)
    requires k < |repos| && Examine(codecs, disk, root, repos[k], md5) != Skip
    ensures SearchRepos(codecs, disk, root, repos + rest, md5) == SearchRepos(codecs, disk, root, repos, md5)
  {
    var all := repos + rest;
    var first := FirstUnskipped(codecs, disk, root, repos, md5, 0);
    assert first <= k < |repos|;
    assert SkippedBefore(codecs, disk, root, all, md5, first) by {
      forall j | 0 <= j < first ensures Examine(codecs, disk, root, all[j], md5) == Skip {
        assert all[j] == repos[j];
      }
    }
    assert all[first] == repos[first];
    SearchDecidedByFirstUnskipped(codecs, disk, root, repos, md5);
    SearchDecidedByFirstUnskipped(codecs, disk, root, all, md5);
  }

  /** What `download_sdp` did: the disk, the events it sent, and the
      package it downloaded, with its repository. */
  datatype Outcome = Outcome(disk: Env.Disk, events: seq<Event>, fetched: Option<(Repo, Sdp)>)

  /** `download_sdp`. `fetch` is `file_download::download_sdp`. Only a
      panic, in the registry parser or in `get_repo_path`, ends it without
      an outcome. */
  function DownloadSdp(codecs: Env.Codecs, fetch: (Repo, Sdp, Env.Disk) -> Result<Env.Disk, Failure>,
                       root: Path, disk: Env.Disk, md5: string): (r: Result<Outcome, Failure>)
    ensures r.Err? ==> r.error.Panic?
    ensures var reg := MetadataLocal.ParseRegistry(codecs, disk, root);
      reg.Err? && !reg.error.Panic? ==> r == Ok(Outcome(disk, [Error(RegistryUnreadable)], None))
    ensures var reg := MetadataLocal.ParseRegistry(codecs, disk, root);
      reg.Ok? && SearchRepos(codecs, disk, root, reg.value, md5) == Ok(None) ==>
      r == Ok(Outcome(disk, [Error(NoSuchSdp(md5))], None))
    ensures r.Ok? && r.value.fetched.Some? ==>
      var reg := MetadataLocal.ParseRegistry(codecs, disk, root);
      reg.Ok? && SearchRepos(codecs, disk, root, reg.value, md5) == Ok(r.value.fetched)
    ensures r.Ok? ==> |r.value.events| <= 1
    ensures r.Ok? && r.value.events == [] ==> r.value.fetched.Some?
    ensures r.Ok? && r.value.fetched.None? ==> r.value.disk == disk
    ensures r.Ok? && r.value.fetched.Some? ==> r.value.fetched.value.1.md5 == md5
  {
    match MetadataLocal.ParseRegistry(codecs, disk, root)
    case Err(e) =>
      if e.Panic? then Err(e) else Ok(Outcome(disk, [Error(RegistryUnreadable)], None))
    case Ok(repos) =>
      FoundIsFirstMatch(codecs, disk, root, repos, md5);
      match SearchRepos(codecs, disk, root, repos, md5)
      case Err(e) => assert e.Panic? by { SearchFailsOnlyByPanic(codecs, disk, root, repos, md5); } Err(e)
      case Ok(None) => Ok(Outcome(disk, [Error(NoSuchSdp(md5))], None))
      case Ok(Some((repo, sdp))) =>
        match fetch(repo, sdp, disk)
        case Err(_) => Ok(Outcome(disk, [Error(SdpDownloadFailed)], Some((repo, sdp))))
        case Ok(next) => Ok(Outcome(next, [], Some((repo, sdp))))
  }

  /** The search fails only when a repository URL has no scheme. */
  lemma {:induction false} SearchFailsOnlyByPanic(codecs: Env.Codecs, disk: Env.Disk, root: Path, repos: seq<Repo>, md5: string)
    ensures SearchRepos(codecs, disk, root, repos, md5).Err? ==> SearchRepos(codecs, disk, root, repos, md5).error.Panic?
    decreases |repos|
  {
    if |repos| > 0 {
      SearchFailsOnlyByPanic(codecs, disk, root, repos[1..], md5);
    }
  }
}
