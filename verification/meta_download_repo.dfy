/** The binary's `meta download-repo` command: read the registry,
    downloading it again between failed reads (at most five reads), pick
    the repository by name, and download its version list. The downloads
    themselves are supplied by the caller. */
module MetaDownloadRepo {
  import opened Wrappers
  import opened Types
  import Env
  import MetadataLocal

  /** The registry is read at most this many times. */
  const MAX_PARSES: nat := 5

  /** `file_download::download_repo_registry`, `download_repo` and
      `download_all_repos`: each either fails or leaves a new disk. */
  datatype Services = Services(
    fetchRegistry: Env.Disk -> Result<Env.Disk, Failure>,
    fetchRepo: (Repo, Env.Disk) -> Result<Env.Disk, Failure>,
    fetchAllRepos: Env.Disk -> Result<Env.Disk, Failure>)

  /** One step of the registry loop, and whether it succeeded. */
  datatype Action = Parsed(ok: bool) | FetchedRegistry(ok: bool)

  /** The loop's result, its steps in order, and the disk it ended on. */
  datatype Loop = Loop(disk: Env.Disk, trace: seq<Action>, result: Result<seq<Repo>, Failure>)

  /** The registry loop from read number `attempt` on. A read that fails
      is followed by a fresh download unless it was the fifth; a failed
      download ends the loop with its error. A malformed registry line is
      a panic inside the parser and ends everything. */
  function RegistryLoop(codecs: Env.Codecs, svc: Services, root: Path, disk: Env.Disk, attempt: nat): (l: Loop)
    requires attempt < MAX_PARSES
    ensures |l.trace| > 0
    ensures l.result.Ok? <==> l.trace[|l.trace| - 1] == Parsed(true)
    ensures l.result.Ok? ==> MetadataLocal.ParseRegistry(codecs, l.disk, root) == l.result
    decreases MAX_PARSES - attempt
  {
    match MetadataLocal.ParseRegistry(codecs, disk, root)
    case Ok(repos) => Loop(disk, [Parsed(true)], Ok(repos))
    case Err(e) =>
      if e.Panic? || attempt + 1 >= MAX_PARSES then Loop(disk, [Parsed(false)], Err(e))
      else match svc.fetchRegistry(disk)
        case Err(f) => Loop(disk, [Parsed(false), FetchedRegistry(false)], Err(f))
        case Ok(next) =>
          var l := RegistryLoop(codecs, svc, root, next, attempt + 1);
          Loop(l.disk, [Parsed(false), FetchedRegistry(true)] + l.trace, l.result)
  }

  /** Reads and downloads alternate, starting with a read; before the
      last step every read failed and every download succeeded. */
  predicate WellShaped(trace: seq<Action>) {
    && (forall i :: 0 <= i < |trace| ==> (trace[i].Parsed? <==> i % 2 == 0))
    && (forall i :: 0 <= i < |trace| - 1 ==> (trace[i].ok <==> trace[i].FetchedRegistry?))
  }

  /** How the loop ended, given the last step: a successful read is the
      result; a failed read is the result, and a failed read before the
      fifth is a panic; a failed download is the result. */
  predicate EndsRight(codecs: Env.Codecs, svc: Services, root: Path, attempt: nat, l: Loop) {
    && |l.trace| > 0
    && var last := l.trace[|l.trace| - 1];
    && (l.result.Ok? <==> last == Parsed(true))
    && (last.Parsed? ==> l.result == MetadataLocal.ParseRegistry(codecs, l.disk, root))
    && (last == Parsed(false) && |l.trace| < 2 * (MAX_PARSES - attempt) - 1 ==> l.result.Err? && l.result.error.Panic?)
    && (last.FetchedRegistry? ==> !last.ok && svc.fetchRegistry(l.disk).Err? && l.result == Err(svc.fetchRegistry(l.disk).error))
  }

  /** The facts the registry loop keeps, from read number `attempt` on. */
  predicate LoopFacts(codecs: Env.Codecs, svc: Services, root: Path, attempt: nat, l: Loop) {
    && |l.trace| <= 2 * (MAX_PARSES - attempt) - 1
    && WellShaped(l.trace)
    && EndsRight(codecs, svc, root, attempt, l)
  }

  /** At most five reads and four downloads; the loop ends at the first
      successful read, at a failed download, at a panic, or after the
      fifth failed read with that read's error. */
  lemma {:induction false} RegistryLoopBounded(codecs: Env.Codecs, svc: Services, root: Path, disk: Env.Disk, attempt: nat)
    requires attempt < MAX_PARSES
    ensures LoopFacts(codecs, svc, root, attempt, RegistryLoop(codecs, svc, root, disk, attempt))
    decreases MAX_PARSES - attempt
  {
    match MetadataLocal.ParseRegistry(codecs, disk, root)
    case Ok(_) =>
    case Err(e) =>
      if !e.Panic? && attempt + 1 < MAX_PARSES {
        match svc.fetchRegistry(disk)
        case Err(_) =>
        case Ok(next) =>
          RegistryLoopBounded(codecs, svc, root, next, attempt + 1);
          var l := RegistryLoop(codecs, svc, root, next, attempt + 1);
          LoopStep(codecs, svc, root, attempt, l);
      }
  }

  /** One failed read followed by a successful download, in front of a
      loop that keeps its facts, keeps them one read earlier. */
  lemma LoopStep(codecs: Env.Codecs, svc: Services, root: Path, attempt: nat, l: Loop)
    requires attempt + 1 < MAX_PARSES
    requires LoopFacts(codecs, svc, root, attempt + 1, l)
    ensures LoopFacts(codecs, svc, root, attempt, Loop(l.disk, [Parsed(false), FetchedRegistry(true)] + l.trace, l.result))
  {
    var t := [Parsed(false), FetchedRegistry(true)] + l.trace;
    assert t[|t| - 1] == l.trace[|l.trace| - 1];
    ShapeStep(l.trace);
  }

  /** A failed read and a successful download in front of a well-shaped
      trace keep it well shaped. */
  lemma ShapeStep(trace: seq<Action>)
    requires |trace| > 0 && WellShaped(trace)
    ensures WellShaped([Parsed(false), FetchedRegistry(true)] + trace)
  {
    var t := [Parsed(false), FetchedRegistry(true)] + trace;
    forall i | 2 <= i < |t|
      ensures (t[i].Parsed? <==> i % 2 == 0) && (i < |t| - 1 ==> (t[i].ok <==> t[i].FetchedRegistry?))
    {
      assert t[i] == trace[i - 2];
    }
  }

  /** The loop reads the registry at most five times and downloads it at
      most four times. */
  lemma RegistryLoopCounts(codecs: Env.Codecs, svc: Services, root: Path, disk: Env.Disk)
    ensures var l := RegistryLoop(codecs, svc, root, disk, 0);
      (|l.trace| + 1) / 2 <= MAX_PARSES && |l.trace| / 2 <= MAX_PARSES - 1
  {
    RegistryLoopBounded(codecs, svc, root, disk, 0);
  }

  /** What `download_one_repo` did: the disk, the registry loop's steps,
      the repository whose version list it downloaded, and its result. */
  datatype Outcome = Outcome(disk: Env.Disk, trace: seq<Action>, fetched: Option<Repo>, result: Result<(), Failure>)

  /** `download_one_repo`. */
  function DownloadOneRepo(codecs: Env.Codecs, svc: Services, root: Path, disk: Env.Disk, name: string): (o: Outcome)
    ensures var l := RegistryLoop(codecs, svc, root, disk, 0);
      && o.trace == l.trace
      && (l.result.Err? ==> o.result == Err(l.result.error) && o.fetched.None?)
      && (l.result.Ok? ==> o.fetched == MetadataLocal.FindRepo(l.result.value, name))
      && (l.result.Ok? && o.fetched.None? ==> o.result == Err(NoSuchRepo))
      && (o.fetched.Some? ==> (o.result.Ok? <==> svc.fetchRepo(o.fetched.value, l.disk).Ok?))
  {
    var l := RegistryLoop(codecs, svc, root, disk, 0);
    match l.result
    case Err(e) => Outcome(l.disk, l.trace, None, Err(e))
    case Ok(repos) =>
      match MetadataLocal.FindRepo(repos, name)
      case None => Outcome(l.disk, l.trace, None, Err(NoSuchRepo))
      case Some(repo) =>
        match svc.fetchRepo(repo, l.disk)
        case Err(e) => Outcome(l.disk, l.trace, Some(repo), Err(e))
        case Ok(next) => Outcome(next, l.trace, Some(repo), Ok(()))
  }

  /** A version list is downloaded only for the first registry entry whose
      name is exactly the one asked for. */
  lemma DownloadsOnlyNamedRepo(codecs: Env.Codecs, svc: Services, root: Path, disk: Env.Disk, name: string)
    ensures var o := DownloadOneRepo(codecs, svc, root, disk, name);
      var l := RegistryLoop(codecs, svc, root, disk, 0);
      o.fetched.Some? ==>
        && l.result.Ok?
        && o.fetched.value.name == name
        && exists k :: 0 <= k < |l.result.value| && l.result.value[k] == o.fetched.value
             && forall j :: 0 <= j < k ==> l.result.value[j].name != name
  {
    var l := RegistryLoop(codecs, svc, root, disk, 0);
    if l.result.Ok? {
      MetadataLocal.FindRepoIsFirst(l.result.value, name);
    }
  }

  // ---------------------------------------------------------------------
  // Reporting
  // ---------------------------------------------------------------------

  datatype Mode = AsWritten | Corrected

  /** `handle_errors`. As written, success is reported through the error
      channel; corrected, it is an informational message. */
  function HandleErrors(mode: Mode, result: Result<(), Failure>): (e: Event)
    ensures result.Err? ==> e == Error(RepoDownloadFailed(result.error))
  {
    match result
    case Err(err) => Error(RepoDownloadFailed(err))
    case Ok(()) => if mode == AsWritten then Error(RepoDownloadSucceeded) else Info(RepoDownloaded)
  }

  /** As written, every outcome, success included, is an error event. */
  lemma HandleErrorsReportsSuccessAsError(result: Result<(), Failure>)
    ensures HandleErrors(AsWritten, result).Error?
    ensures result.Ok? ==> HandleErrors(AsWritten, result) == Error(RepoDownloadSucceeded)
  {
  }

  /** Corrected, an error event is sent exactly when the download failed. */
  lemma HandleErrorsCorrected(result: Result<(), Failure>)
    ensures HandleErrors(Corrected, result).Error? <==> result.Err?
  {
  }

  /** `meta_download_repo`: one named repository, or all of them. */
  function MetaDownloadRepo(mode: Mode, codecs: Env.Codecs, svc: Services, root: Path, disk: Env.Disk, repo: Option<string>): (r: (Env.Disk, Event))
    ensures repo.Some? ==> r.1 == HandleErrors(mode, DownloadOneRepo(codecs, svc, root, disk, repo.value).result)
    ensures repo.None? ==> (r.1.Error? && r.1.problem.RepoDownloadFailed? <==> svc.fetchAllRepos(disk).Err?)
  {
    match repo
    case Some(name) =>
      var o := DownloadOneRepo(codecs, svc, root, disk, name);
      (o.disk, HandleErrors(mode, o.result))
    case None =>
      match svc.fetchAllRepos(disk)
      case Err(e) => (disk, HandleErrors(mode, Err(e)))
      case Ok(next) => (next, HandleErrors(mode, Ok(())))
  }
}
