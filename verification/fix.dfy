/** The `fix` command: validate a descriptor's blobs, delete the damaged
    ones, download again, and try at most five times. Validation and the
    download are supplied by the caller as functions of the disk; deleting
    a file is an operation on the modelled disk. Both copies of the
    command are modelled: the library's, which prints its messages, and
    the binary's, which sends them as events. */
module Fix {
  import opened Wrappers
  import opened Types
  import Env

  /** `fix` gives up after this many attempts. */
  const MAX_ATTEMPTS: nat := 5

  /** Where metadata queries are answered from (`api::MetadataSource`). */
  datatype MetadataSource = Local | FileApi | RestApi(url: string)

  /** `ValidityErrors`, with `Ok(())` as `Valid`: the verdict on a tag and
      the damaged files found. */
  datatype Validity =
    | Valid
    | MissingSdp
    | MetadataQueryError
    | InvalidFiles(files: seq<(Path, FileError)>)

  /** `validation::validate_by_fullname` and `download` as seen by `fix`:
      a verdict on the current disk and the disk after a download, each
      given the metadata source in use. */
  datatype Services = Services(
    validate: (MetadataSource, Env.Disk) -> Validity,
    download: (MetadataSource, Env.Disk) -> Env.Disk)

  /** `cmds::fix` in the library prints; `bin::cmds::fix` emits events.
      The printed lines are modelled as the same events. */
  datatype Variant = Library | Binary

  /** The library validates from local metadata and downloads with the
      default options; the binary uses the caller's options for both. */
  function ValidationSource(variant: Variant, opts: MetadataSource): MetadataSource {
    if variant == Library then Local else opts
  }

  function DownloadSource(variant: Variant, opts: MetadataSource): MetadataSource {
    if variant == Library then FileApi else opts
  }

  // ---------------------------------------------------------------------
  // Deleting damaged files
  // ---------------------------------------------------------------------

  /** Only these two kinds are deleted; a missing file is left alone. */
  predicate Deletable(e: FileError) {
    e == Corrupt || e == WrongHash
  }

  /** The paths `fix` tries to delete, in report order. */
  function Damaged(files: seq<(Path, FileError)>): (ps: seq<Path>)
    ensures |ps| <= |files|
  {
    if |files| == 0 then []
    else (if Deletable(files[0].1) then [files[0].0] else []) + Damaged(files[1..])
  }

  /** A path is damaged exactly when some report entry lists it as
      corrupt or with the wrong hash. */
  lemma {:induction false} DamagedMembers(files: seq<(Path, FileError)>, p: Path)
    ensures p in Damaged(files) <==> exists k :: 0 <= k < |files| && files[k].0 == p && Deletable(files[k].1)
    decreases |files|
  {
    if |files| > 0 {
      DamagedMembers(files[1..], p);
      assert forall k :: 0 <= k < |files[1..]| ==> files[1..][k] == files[k + 1];
      if p in Damaged(files[1..]) {
        var k :| 0 <= k < |files[1..]| && files[1..][k].0 == p && Deletable(files[1..][k].1);
        assert files[k + 1].0 == p && Deletable(files[k + 1].1);
      }
    }
  }

  function DamagedSet(files: seq<(Path, FileError)>): set<Path> {
    set p | p in Damaged(files)
  }

  /** What the deletion loop leaves: the disk, one error per failed
      removal, and `removed_files`. */
  datatype Removal = Removal(disk: Env.Disk, events: seq<Event>, removed: nat)

  /** The deletion loop. Removing a path that is not on the disk (it was
      never there, or it was listed twice) fails, is reported, and the
      loop goes on. */
  function RemoveDamaged(disk: Env.Disk, files: seq<(Path, FileError)>): (r: Removal)
    ensures r.removed + |r.events| == |Damaged(files)|
    ensures forall k :: 0 <= k < |r.events| ==> r.events[k].Error? && r.events[k].problem.RemoveFailed?
  {
    if |files| == 0 then Removal(disk, [], 0)
    else
      var path := files[0].0;
      if !Deletable(files[0].1) then RemoveDamaged(disk, files[1..])
      else if path in disk then
        var r := RemoveDamaged(disk - {path}, files[1..]);
        Removal(r.disk, r.events, r.removed + 1)
      else
        var r := RemoveDamaged(disk, files[1..]);
        Removal(r.disk, [Error(RemoveFailed(path))] + r.events, r.removed)
  }

  /** The loop deletes exactly the damaged paths, and counts one for
      each that was on the disk. */
  lemma {:induction false} RemoveDamagedEffect(disk: Env.Disk, files: seq<(Path, FileError)>)
    ensures var r := RemoveDamaged(disk, files);
      r.disk == disk - DamagedSet(files) && r.removed + |r.disk| == |disk|
    decreases |files|
  {
    if |files| > 0 {
      var path := files[0].0;
      DamagedSetStep(files);
      if !Deletable(files[0].1) {
        RemoveDamagedEffect(disk, files[1..]);
      } else if path in disk {
        RemoveDamagedEffect(disk - {path}, files[1..]);
        SubtractPresent(disk, path, DamagedSet(files[1..]));
      } else {
        RemoveDamagedEffect(disk, files[1..]);
        SubtractAbsent(disk, path, DamagedSet(files[1..]));
      }
    }
  }

  lemma SubtractAbsent(disk: Env.Disk, p: Path, s: set<Path>)
    requires p !in disk
    ensures disk - s == disk - ({p} + s)
  {
  }

  lemma SubtractPresent(disk: Env.Disk, p: Path, s: set<Path>)
    requires p in disk
    ensures disk - {p} - s == disk - ({p} + s)
    ensures |disk - {p}| == |disk| - 1
  {
    assert (disk - {p}).Keys == disk.Keys - {p};
  }

  lemma DamagedSetStep(files: seq<(Path, FileError)>)
    requires |files| > 0
    ensures DamagedSet(files) == (if Deletable(files[0].1) then {files[0].0} else {}) + DamagedSet(files[1..])
  {
  }

  /** Files reported as missing, and paths not reported at all, keep
      their contents; every damaged path is gone afterwards. */
  lemma RemovalKeepsOthers(disk: Env.Disk, files: seq<(Path, FileError)>, p: Path)
    ensures var r := RemoveDamaged(disk, files);
      && (p in disk && (forall k :: 0 <= k < |files| && files[k].0 == p ==> !Deletable(files[k].1))
          ==> p in r.disk && r.disk[p] == disk[p])
      && ((exists k :: 0 <= k < |files| && files[k].0 == p && Deletable(files[k].1)) ==> p !in r.disk)
  {
    RemoveDamagedEffect(disk, files);
    DamagedMembers(files, p);
  }

  // ---------------------------------------------------------------------
  // One attempt
  // ---------------------------------------------------------------------

  /** The outcome of `fix_attempt`: its return value, the disk, what it
      reported, and the source of the download it started, if any. */
  datatype AttemptResult = AttemptResult(success: bool, disk: Env.Disk, events: seq<Event>, downloaded: Option<MetadataSource>)

  /** Every failed verdict ends in the same download. */
  function Redownload(variant: Variant, opts: MetadataSource, svc: Services, disk: Env.Disk, events: seq<Event>): AttemptResult {
    var source := DownloadSource(variant, opts);
    AttemptResult(false, svc.download(source, disk), events, Some(source))
  }

  /** `fix_attempt`: a valid tag is reported and nothing is downloaded;
      otherwise the damaged files are deleted (for an `InvalidFiles`
      verdict) and the tag is downloaded again. */
  function FixAttempt(variant: Variant, opts: MetadataSource, svc: Services, fullname: string, disk: Env.Disk): (a: AttemptResult)
    ensures a.success <==> svc.validate(ValidationSource(variant, opts), disk) == Valid
    ensures a.success ==> a.disk == disk && a.downloaded.None?
    ensures !a.success ==> a.downloaded == Some(DownloadSource(variant, opts))
    ensures forall k :: 0 <= k < |a.events| ==> !Outcome(a.events[k])
  {
    match svc.validate(ValidationSource(variant, opts), disk)
    case Valid => AttemptResult(true, disk, [Info(Verified(fullname))], None)
    case MissingSdp => Redownload(variant, opts, svc, disk, [Error(SdpFileMissing)])
    case MetadataQueryError => Redownload(variant, opts, svc, disk, [Error(MetadataQueryFailed)])
    case InvalidFiles(files) =>
      var r := RemoveDamaged(disk, files);
      Redownload(variant, opts, svc, r.disk, r.events + [Info(RemovedFiles(r.removed))])
  }

  /** A failed attempt downloads over the disk its deletions left. */
  lemma FailedAttemptDownloads(variant: Variant, opts: MetadataSource, svc: Services, fullname: string, disk: Env.Disk)
    ensures var v := svc.validate(ValidationSource(variant, opts), disk);
      var a := FixAttempt(variant, opts, svc, fullname, disk);
      && (v.InvalidFiles? ==> a.disk == svc.download(DownloadSource(variant, opts), disk - DamagedSet(v.files)))
      && (v.MissingSdp? || v.MetadataQueryError? ==> a.disk == svc.download(DownloadSource(variant, opts), disk))
  {
    var v := svc.validate(ValidationSource(variant, opts), disk);
    if v.InvalidFiles? {
      RemoveDamagedEffect(disk, v.files);
    }
  }

  /** A failed attempt leaves the disk the reference step describes. */
  lemma FailedAttemptIsNextDisk(variant: Variant, opts: MetadataSource, svc: Services, fullname: string, disk: Env.Disk)
    requires !FixAttempt(variant, opts, svc, fullname, disk).success
    ensures FixAttempt(variant, opts, svc, fullname, disk).disk == NextDisk(variant, opts, svc, disk)
  {
    FailedAttemptDownloads(variant, opts, svc, fullname, disk);
  }

  /** The count that an `InvalidFiles` attempt reports is the number of
      damaged paths that were on the disk. */
  lemma RemovedCountReported(variant: Variant, opts: MetadataSource, svc: Services, fullname: string, disk: Env.Disk)
    requires svc.validate(ValidationSource(variant, opts), disk).InvalidFiles?
    ensures var files := svc.validate(ValidationSource(variant, opts), disk).files;
      var a := FixAttempt(variant, opts, svc, fullname, disk);
      a.events[|a.events| - 1] == Info(RemovedFiles(|disk| - |disk - DamagedSet(files)|))
  {
    RemoveDamagedEffect(disk, svc.validate(ValidationSource(variant, opts), disk).files);
  }

  // ---------------------------------------------------------------------
  // The retry loop
  // ---------------------------------------------------------------------

  /** What `fix` did: the final disk, its messages, how many attempts ran,
      the sources of the downloads it started, and whether it ended on a
      valid tag. */
  datatype Run = Run(disk: Env.Disk, events: seq<Event>, attempts: nat, downloads: seq<MetadataSource>, succeeded: bool)

  /** The loop from attempt number `attempt` on. */
  function FixFrom(variant: Variant, opts: MetadataSource, svc: Services, fullname: string, disk: Env.Disk, attempt: nat): (r: Run)
    requires attempt <= MAX_ATTEMPTS
    ensures attempt + r.attempts <= MAX_ATTEMPTS
    ensures !r.succeeded ==> attempt + r.attempts == MAX_ATTEMPTS
    ensures r.succeeded ==> |r.downloads| + 1 == r.attempts
    ensures !r.succeeded ==> |r.downloads| == r.attempts
    decreases MAX_ATTEMPTS - attempt
  {
    if attempt == MAX_ATTEMPTS then Run(disk, [Error(FixGaveUp)], 0, [], false)
    else
      var a := FixAttempt(variant, opts, svc, fullname, disk);
      var started := [Info(FixAttemptStarted(attempt))] + a.events;
      if a.success then Run(a.disk, started + [Info(FixSucceeded)], 1, [], true)
      else
        var r := FixFrom(variant, opts, svc, fullname, a.disk, attempt + 1);
        Run(r.disk, started + r.events, r.attempts + 1, [a.downloaded.value] + r.downloads, r.succeeded)
  }

  /** Every download `fix` starts uses the same options. */
  lemma {:induction false} FixDownloadsUseOptions(variant: Variant, opts: MetadataSource, svc: Services, fullname: string, disk: Env.Disk, attempt: nat)
    requires attempt <= MAX_ATTEMPTS
    ensures var r := FixFrom(variant, opts, svc, fullname, disk, attempt);
      forall k :: 0 <= k < |r.downloads| ==> r.downloads[k] == DownloadSource(variant, opts)
    decreases MAX_ATTEMPTS - attempt
  {
    var a := FixAttempt(variant, opts, svc, fullname, disk);
    if attempt < MAX_ATTEMPTS && !a.success {
      FixDownloadsUseOptions(variant, opts, svc, fullname, a.disk, attempt + 1);
      var r := FixFrom(variant, opts, svc, fullname, a.disk, attempt + 1);
      assert FixFrom(variant, opts, svc, fullname, disk, attempt).downloads == [a.downloaded.value] + r.downloads;
      AllSameCons(a.downloaded.value, r.downloads, DownloadSource(variant, opts));
    }
  }

  lemma AllSameCons(x: MetadataSource, xs: seq<MetadataSource>, v: MetadataSource)
    requires x == v && forall k :: 0 <= k < |xs| ==> xs[k] == v
    ensures forall k :: 0 <= k < |[x] + xs| ==> ([x] + xs)[k] == v
  {
  }

  /** The last message of a run says how it ended. */
  lemma {:induction false} FixEndsWithOutcome(variant: Variant, opts: MetadataSource, svc: Services, fullname: string, disk: Env.Disk, attempt: nat)
    requires attempt <= MAX_ATTEMPTS
    ensures EndsWithOutcome(FixFrom(variant, opts, svc, fullname, disk, attempt))
    decreases MAX_ATTEMPTS - attempt
  {
    var a := FixAttempt(variant, opts, svc, fullname, disk);
    if attempt < MAX_ATTEMPTS && !a.success {
      FixEndsWithOutcome(variant, opts, svc, fullname, a.disk, attempt + 1);
    }
    EndsStep(variant, opts, svc, fullname, disk, attempt);
  }

  predicate EndsWithOutcome(r: Run) {
    |r.events| > 0 && r.events[|r.events| - 1] == OutcomeOf(r.succeeded)
  }

  /** One turn of the loop keeps the outcome message last. */
  lemma EndsStep(variant: Variant, opts: MetadataSource, svc: Services, fullname: string, disk: Env.Disk, attempt: nat)
    requires attempt <= MAX_ATTEMPTS
    requires attempt < MAX_ATTEMPTS && !FixAttempt(variant, opts, svc, fullname, disk).success ==>
      EndsWithOutcome(FixFrom(variant, opts, svc, fullname, FixAttempt(variant, opts, svc, fullname, disk).disk, attempt + 1))
    ensures EndsWithOutcome(FixFrom(variant, opts, svc, fullname, disk, attempt))
  {
    var a := FixAttempt(variant, opts, svc, fullname, disk);
    var r0 := FixFrom(variant, opts, svc, fullname, disk, attempt);
    if attempt == MAX_ATTEMPTS {
      assert r0.events == [OutcomeOf(false)];
    } else {
      var started := [Info(FixAttemptStarted(attempt))] + a.events;
      if a.success {
        assert r0.events == started + [OutcomeOf(true)];
      } else {
        var r := FixFrom(variant, opts, svc, fullname, a.disk, attempt + 1);
        assert r0.events == started + r.events && r0.succeeded == r.succeeded;
        assert r0.events[|r0.events| - 1] == r.events[|r.events| - 1];
      }
    }
  }

  /** No message before the last reports an outcome, so a run reports
      success or giving up exactly once. */
  lemma {:induction false} FixReportsOutcomeOnce(variant: Variant, opts: MetadataSource, svc: Services, fullname: string, disk: Env.Disk, attempt: nat)
    requires attempt <= MAX_ATTEMPTS
    ensures NoEarlyOutcome(FixFrom(variant, opts, svc, fullname, disk, attempt))
    decreases MAX_ATTEMPTS - attempt
  {
    var a := FixAttempt(variant, opts, svc, fullname, disk);
    if attempt < MAX_ATTEMPTS {
      var started := [Info(FixAttemptStarted(attempt))] + a.events;
      assert forall k :: 0 <= k < |started| ==> !Outcome(started[k]);
      if a.success {
        assert FixFrom(variant, opts, svc, fullname, disk, attempt).events == started + [Info(FixSucceeded)];
        NoOutcomeBefore(started, [Info(FixSucceeded)]);
      } else {
        FixReportsOutcomeOnce(variant, opts, svc, fullname, a.disk, attempt + 1);
        FixEndsWithOutcome(variant, opts, svc, fullname, a.disk, attempt + 1);
        var r := FixFrom(variant, opts, svc, fullname, a.disk, attempt + 1);
        assert EndsWithOutcome(r) && NoEarlyOutcome(r);
        assert FixFrom(variant, opts, svc, fullname, disk, attempt).events == started + r.events;
        NoOutcomeBefore(started, r.events);
      }
    }
  }

  predicate NoEarlyOutcome(r: Run) {
    forall k :: 0 <= k < |r.events| - 1 ==> !Outcome(r.events[k])
  }

  /** The two messages that end a run. */
  predicate Outcome(e: Event) {
    e == Error(FixGaveUp) || e == Info(FixSucceeded)
  }

  function OutcomeOf(succeeded: bool): (e: Event)
    ensures Outcome(e)
  {
    if succeeded then Info(FixSucceeded) else Error(FixGaveUp)
  }

  lemma NoOutcomeBefore(started: seq<Event>, rest: seq<Event>)
    requires |rest| > 0
    requires forall k :: 0 <= k < |started| ==> !Outcome(started[k])
    requires forall k :: 0 <= k < |rest| - 1 ==> !Outcome(rest[k])
    ensures forall k :: 0 <= k < |started + rest| - 1 ==> !Outcome((started + rest)[k])
  {
    forall k | 0 <= k < |started + rest| - 1
      ensures !Outcome((started + rest)[k])
    {
      if k >= |started| {
        assert (started + rest)[k] == rest[k - |started|];
      }
    }
  }

  /** `fix`. */
  function Fix(variant: Variant, opts: MetadataSource, svc: Services, fullname: string, disk: Env.Disk): (r: Run)
    ensures 1 <= r.attempts <= MAX_ATTEMPTS
    ensures r.succeeded ==> |r.downloads| == r.attempts - 1
    ensures !r.succeeded ==> r.attempts == MAX_ATTEMPTS && |r.downloads| == MAX_ATTEMPTS
    ensures |r.events| > 0 && r.events[0] == Info(FixAttemptStarted(0))
  {
    FixFrom(variant, opts, svc, fullname, disk, 0)
  }

  /** The disk a failed attempt leaves, stated without the deletion
      loop: the damaged paths are taken off the disk as a set, and the
      download runs over what is left. */
  function NextDisk(variant: Variant, opts: MetadataSource, svc: Services, disk: Env.Disk): Env.Disk {
    var source := DownloadSource(variant, opts);
    match svc.validate(ValidationSource(variant, opts), disk)
    case Valid => disk
    case InvalidFiles(files) => svc.download(source, disk - DamagedSet(files))
    case _ => svc.download(source, disk)
  }

  /** The disk after `k` failed attempts. */
  function AfterFailures(variant: Variant, opts: MetadataSource, svc: Services, disk: Env.Disk, k: nat): Env.Disk
    decreases k
  {
    if k == 0 then disk
    else AfterFailures(variant, opts, svc, NextDisk(variant, opts, svc, disk), k - 1)
  }

  /** Whether the tag validates before attempt `k`, had every earlier
      attempt failed. */
  predicate ValidAt(variant: Variant, opts: MetadataSource, svc: Services, disk: Env.Disk, k: nat) {
    svc.validate(ValidationSource(variant, opts), AfterFailures(variant, opts, svc, disk, k)) == Valid
  }

  /** A run that failed `n` times from `disk` and then either stopped on
      a valid tag or gave up, leaving `final`. */
  predicate StoppedAfter(variant: Variant, opts: MetadataSource, svc: Services, disk: Env.Disk,
                         n: nat, succeeded: bool, final: Env.Disk) {
    && (forall j :: 0 <= j < n ==> !ValidAt(variant, opts, svc, disk, j))
    && (succeeded ==> ValidAt(variant, opts, svc, disk, n))
    && final == AfterFailures(variant, opts, svc, disk, n)
  }

  /** The loop stops at the first attempt whose validation passes, and
      only then. */
  lemma {:induction false} FixFromStopsAtFirstValid(variant: Variant, opts: MetadataSource, svc: Services, fullname: string, disk: Env.Disk, attempt: nat)
    requires attempt <= MAX_ATTEMPTS
    ensures var r := FixFrom(variant, opts, svc, fullname, disk, attempt);
      StoppedAfter(variant, opts, svc, disk, |r.downloads|, r.succeeded, r.disk)
    decreases MAX_ATTEMPTS - attempt
  {
    var a := FixAttempt(variant, opts, svc, fullname, disk);
    if attempt < MAX_ATTEMPTS && !a.success {
      FixFromStopsAtFirstValid(variant, opts, svc, fullname, a.disk, attempt + 1);
      FailedAttemptStep(variant, opts, svc, fullname, disk, attempt);
    } else {
      LastAttemptStep(variant, opts, svc, fullname, disk, attempt);
    }
  }

  /** The step of `FixFromStopsAtFirstValid` where the loop gives up or
      stops on a valid tag. */
  lemma LastAttemptStep(variant: Variant, opts: MetadataSource, svc: Services, fullname: string, disk: Env.Disk, attempt: nat)
    requires attempt <= MAX_ATTEMPTS
    requires attempt == MAX_ATTEMPTS || FixAttempt(variant, opts, svc, fullname, disk).success
    ensures var r0 := FixFrom(variant, opts, svc, fullname, disk, attempt);
      StoppedAfter(variant, opts, svc, disk, |r0.downloads|, r0.succeeded, r0.disk)
  {
    FixFromUnfold(variant, opts, svc, fullname, disk, attempt);
    var r0 := FixFrom(variant, opts, svc, fullname, disk, attempt);
    assert r0.downloads == [] && r0.disk == disk;
  }

  /** The step of `FixFromStopsAtFirstValid` after a failed attempt, given
      the property for the rest of the loop. */
  lemma FailedAttemptStep(variant: Variant, opts: MetadataSource, svc: Services, fullname: string, disk: Env.Disk, attempt: nat)
    requires attempt < MAX_ATTEMPTS && !FixAttempt(variant, opts, svc, fullname, disk).success
    requires var r := FixFrom(variant, opts, svc, fullname, FixAttempt(variant, opts, svc, fullname, disk).disk, attempt + 1);
      StoppedAfter(variant, opts, svc, FixAttempt(variant, opts, svc, fullname, disk).disk, |r.downloads|, r.succeeded, r.disk)
    ensures var r0 := FixFrom(variant, opts, svc, fullname, disk, attempt);
      StoppedAfter(variant, opts, svc, disk, |r0.downloads|, r0.succeeded, r0.disk)
  {
    var a := FixAttempt(variant, opts, svc, fullname, disk);
    var r0 := FixFrom(variant, opts, svc, fullname, disk, attempt);
    var r := FixFrom(variant, opts, svc, fullname, a.disk, attempt + 1);
    FixFromUnfold(variant, opts, svc, fullname, disk, attempt);
    FailedAttemptIsNextDisk(variant, opts, svc, fullname, disk);
    FailureStep(variant, opts, svc, disk, |r.downloads|, r.succeeded, r.disk);
    assert |r0.downloads| == |r.downloads| + 1 && r0.succeeded == r.succeeded && r0.disk == r.disk;
  }

  /** One turn of the loop: giving up, stopping on success, or one failed
      attempt in front of the rest. */
  lemma FixFromUnfold(variant: Variant, opts: MetadataSource, svc: Services, fullname: string, disk: Env.Disk, attempt: nat)
    requires attempt <= MAX_ATTEMPTS
    ensures var r0 := FixFrom(variant, opts, svc, fullname, disk, attempt);
      var a := FixAttempt(variant, opts, svc, fullname, disk);
      if attempt == MAX_ATTEMPTS then r0.downloads == [] && !r0.succeeded && r0.disk == disk
      else if a.success then r0.downloads == [] && r0.succeeded && r0.disk == disk
      else
        var r := FixFrom(variant, opts, svc, fullname, a.disk, attempt + 1);
        |r0.downloads| == |r.downloads| + 1 && r0.succeeded == r.succeeded && r0.disk == r.disk
  {
  }

  /** One failed attempt in front of a run that stopped after `n`
      failures makes a run that stopped after `n + 1`. */
  lemma FailureStep(variant: Variant, opts: MetadataSource, svc: Services, disk: Env.Disk,
                    n: nat, succeeded: bool, final: Env.Disk)
    requires !ValidAt(variant, opts, svc, disk, 0)
    requires StoppedAfter(variant, opts, svc, NextDisk(variant, opts, svc, disk), n, succeeded, final)
    ensures StoppedAfter(variant, opts, svc, disk, n + 1, succeeded, final)
  {
    forall j | 0 < j < n + 1
      ensures !ValidAt(variant, opts, svc, disk, j)
    {
      assert AfterFailures(variant, opts, svc, disk, j) == AfterFailures(variant, opts, svc, NextDisk(variant, opts, svc, disk), j - 1);
      assert !ValidAt(variant, opts, svc, NextDisk(variant, opts, svc, disk), j - 1);
    }
    assert AfterFailures(variant, opts, svc, disk, n + 1) == AfterFailures(variant, opts, svc, NextDisk(variant, opts, svc, disk), n);
  }

  /** `fix` succeeds exactly when one of the first five validations
      passes; it then stops there, after one download per failed attempt,
      and otherwise gives up after five downloads with a single error. */
  lemma FixSucceedsIffSomeAttemptValid(variant: Variant, opts: MetadataSource, svc: Services, fullname: string, disk: Env.Disk)
    ensures var r := Fix(variant, opts, svc, fullname, disk);
      && (r.succeeded <==> exists j :: 0 <= j < MAX_ATTEMPTS && ValidAt(variant, opts, svc, disk, j))
      && (r.succeeded ==> ValidAt(variant, opts, svc, disk, r.attempts - 1))
      && (!r.succeeded ==> r.attempts == MAX_ATTEMPTS && |r.downloads| == MAX_ATTEMPTS)
  {
    FixFromStopsAtFirstValid(variant, opts, svc, fullname, disk, 0);
  }
}
