/** Deciding whether a package needs downloading, by recomputing the
    MD5 digest of every blob a descriptor lists, and the per-file check
    used after a blob has been written.
    Source: src/validation.rs. */
module Validation {
  import opened Wrappers
  import opened Types
  import Env
  import Parsing
  import RapidStore

  /** The blob's pool file can be read and decompressed. */
  predicate Readable(codecs: Env.Codecs, disk: Env.Disk, root: Path, p: SdpPackage)
    requires |p.md5Bin| == Parsing.MD5_LEN
  {
    Env.ReadBinaryGz(codecs, disk, RapidStore.GetPoolPath(root, p)).Ok?
  }

  /** The blob's pool file decompresses to contents with the recorded digest. */
  predicate Matches(codecs: Env.Codecs, disk: Env.Disk, root: Path, p: SdpPackage)
    requires |p.md5Bin| == Parsing.MD5_LEN
  {
    && Readable(codecs, disk, root, p)
    && codecs.md5(Env.ReadBinaryGz(codecs, disk, RapidStore.GetPoolPath(root, p)).value) == p.md5Bin
  }

  /** Every record before index `k` has a pool file with the recorded digest. */
  predicate PrefixMatches(codecs: Env.Codecs, disk: Env.Disk, root: Path, ps: seq<SdpPackage>, k: nat)
    requires RapidStore.DigestsWellSized(ps) && k <= |ps|
  {
    forall j :: 0 <= j < k ==> Matches(codecs, disk, root, ps[j])
  }

  /** Record `k` is the first whose digest differs, its pool file being readable. */
  predicate FirstMismatchAt(codecs: Env.Codecs, disk: Env.Disk, root: Path, ps: seq<SdpPackage>, k: nat)
    requires RapidStore.DigestsWellSized(ps)
  {
    k < |ps| && Readable(codecs, disk, root, ps[k]) && !Matches(codecs, disk, root, ps[k])
    && PrefixMatches(codecs, disk, root, ps, k)
  }

  /** Record `k` is the first whose pool file cannot be read or decompressed. */
  predicate FirstUnreadableAt(codecs: Env.Codecs, disk: Env.Disk, root: Path, ps: seq<SdpPackage>, k: nat)
    requires RapidStore.DigestsWellSized(ps)
  {
    k < |ps| && !Readable(codecs, disk, root, ps[k]) && PrefixMatches(codecs, disk, root, ps, k)
  }

  /** The loop of `check_if_sdp_needs_download` over the records: the first
      record whose digest differs answers `true`; a pool file that cannot
      be read or decompressed panics at its `unwrap`. */
  function ScanPackages(codecs: Env.Codecs, disk: Env.Disk, root: Path, ps: seq<SdpPackage>): (r: Result<bool, Failure>)
    requires RapidStore.DigestsWellSized(ps)
    ensures r == Ok(false) <==> PrefixMatches(codecs, disk, root, ps, |ps|)
    ensures r == Ok(true) <==> exists k: nat :: FirstMismatchAt(codecs, disk, root, ps, k)
    ensures r.Err? <==> exists k: nat :: FirstUnreadableAt(codecs, disk, root, ps, k)
    ensures r.Err? ==> r.error.Panic?
  {
    if |ps| == 0 then Ok(false)
    else
      var path := RapidStore.GetPoolPath(root, ps[0]);
      match Env.ReadBinaryGz(codecs, disk, path)
      case Err(_) =>
        assert FirstUnreadableAt(codecs, disk, root, ps, 0);
        Err(Panic("pool file cannot be read"))
      case Ok(data) =>
        if codecs.md5(data) != ps[0].md5Bin then
          assert FirstMismatchAt(codecs, disk, root, ps, 0);
          Ok(true)
        else
          var r := ScanPackages(codecs, disk, root, ps[1..]);
          ShiftPrefix(codecs, disk, root, ps);
          ShiftMismatch(codecs, disk, root, ps);
          ShiftUnreadable(codecs, disk, root, ps);
          r
  }

  lemma ShiftOne(codecs: Env.Codecs, disk: Env.Disk, root: Path, ps: seq<SdpPackage>, k: nat)
    requires RapidStore.DigestsWellSized(ps) && 0 < k <= |ps|
    requires Matches(codecs, disk, root, ps[0])
    ensures PrefixMatches(codecs, disk, root, ps, k) <==> PrefixMatches(codecs, disk, root, ps[1..], k - 1)
  {
    var tail := ps[1..];
    if PrefixMatches(codecs, disk, root, tail, k - 1) {
      forall j | 0 <= j < k ensures Matches(codecs, disk, root, ps[j]) {
        if j > 0 { assert ps[j] == tail[j - 1]; }
      }
    }
    if PrefixMatches(codecs, disk, root, ps, k) {
      forall j | 0 <= j < k - 1 ensures Matches(codecs, disk, root, tail[j]) {
        assert tail[j] == ps[j + 1];
      }
    }
  }

  lemma ShiftPrefix(codecs: Env.Codecs, disk: Env.Disk, root: Path, ps: seq<SdpPackage>)
    requires RapidStore.DigestsWellSized(ps) && |ps| > 0
    requires Matches(codecs, disk, root, ps[0])
    ensures PrefixMatches(codecs, disk, root, ps, |ps|) <==> PrefixMatches(codecs, disk, root, ps[1..], |ps| - 1)
  {
    ShiftOne(codecs, disk, root, ps, |ps|);
  }

  lemma ShiftMismatch(codecs: Env.Codecs, disk: Env.Disk, root: Path, ps: seq<SdpPackage>)
    requires RapidStore.DigestsWellSized(ps) && |ps| > 0
    requires Matches(codecs, disk, root, ps[0])
    ensures (exists k: nat :: FirstMismatchAt(codecs, disk, root, ps, k))
        <==> (exists k: nat :: FirstMismatchAt(codecs, disk, root, ps[1..], k))
  {
    if k: nat :| FirstMismatchAt(codecs, disk, root, ps, k) {
      assert k > 0;
      ShiftOne(codecs, disk, root, ps, k);
      assert FirstMismatchAt(codecs, disk, root, ps[1..], k - 1);
    }
    if k: nat :| FirstMismatchAt(codecs, disk, root, ps[1..], k) {
      ShiftOne(codecs, disk, root, ps, k + 1);
      assert FirstMismatchAt(codecs, disk, root, ps, k + 1);
    }
  }

  lemma ShiftUnreadable(codecs: Env.Codecs, disk: Env.Disk, root: Path, ps: seq<SdpPackage>)
    requires RapidStore.DigestsWellSized(ps) && |ps| > 0
    requires Matches(codecs, disk, root, ps[0])
    ensures (exists k: nat :: FirstUnreadableAt(codecs, disk, root, ps, k))
        <==> (exists k: nat :: FirstUnreadableAt(codecs, disk, root, ps[1..], k))
  {
    if k: nat :| FirstUnreadableAt(codecs, disk, root, ps, k) {
      assert k > 0;
      ShiftOne(codecs, disk, root, ps, k);
      assert FirstUnreadableAt(codecs, disk, root, ps[1..], k - 1);
    }
    if k: nat :| FirstUnreadableAt(codecs, disk, root, ps[1..], k) {
      ShiftOne(codecs, disk, root, ps, k + 1);
      assert FirstUnreadableAt(codecs, disk, root, ps, k + 1);
    }
  }

  /** The descriptor file of `md5` can be read and decompressed. */
  predicate DescriptorReadable(codecs: Env.Codecs, disk: Env.Disk, root: Path, md5: string) {
    Env.ReadBinaryGz(codecs, disk, RapidStore.GetSdpPathFromMd5(root, md5)).Ok?
  }

  /** The records of a readable descriptor file, when they decode. */
  function DescriptorRecords(codecs: Env.Codecs, disk: Env.Disk, root: Path, md5: string): Result<seq<SdpPackage>, Failure>
    requires DescriptorReadable(codecs, disk, root, md5)
  {
    Parsing.LoadSdpPackages(Env.ReadBinaryGz(codecs, disk, RapidStore.GetSdpPathFromMd5(root, md5)).value)
  }

  lemma WellFormedDigests(ps: seq<SdpPackage>)
    requires Parsing.AllWellFormed(ps)
    ensures RapidStore.DigestsWellSized(ps)
  {
  }

  /** `check_if_sdp_needs_download`. A missing descriptor needs a download;
      one that cannot be read or decompressed is reported as not needing
      one; a readable one that does not decode panics; otherwise the
      answer is whether some blob fails its digest, stopping at the first. */
  function CheckIfSdpNeedsDownload(codecs: Env.Codecs, disk: Env.Disk, root: Path, md5: string): (r: Result<bool, Failure>)
    ensures RapidStore.GetSdpPathFromMd5(root, md5) !in disk ==> r == Ok(true)
    ensures RapidStore.GetSdpPathFromMd5(root, md5) in disk && !DescriptorReadable(codecs, disk, root, md5) ==> r == Ok(false)
    ensures DescriptorReadable(codecs, disk, root, md5) && DescriptorRecords(codecs, disk, root, md5).Err? ==> r.Err?
    ensures DescriptorReadable(codecs, disk, root, md5) && DescriptorRecords(codecs, disk, root, md5).Ok? ==>
      var ps := DescriptorRecords(codecs, disk, root, md5).value;
      && RapidStore.DigestsWellSized(ps)
      && (r == Ok(false) <==> PrefixMatches(codecs, disk, root, ps, |ps|))
      && (r == Ok(true) <==> exists k: nat :: FirstMismatchAt(codecs, disk, root, ps, k))
    ensures r.Err? ==> r.error.Panic?
  {
    var sdpPath := RapidStore.GetSdpPathFromMd5(root, md5);
    if sdpPath !in disk then Ok(true)
    else match Env.ReadBinaryGz(codecs, disk, sdpPath)
      case Err(_) => Ok(false)
      case Ok(data) =>
        match Parsing.LoadSdpPackages(data)
        case Err(e) => Err(e)
        case Ok(ps) =>
          WellFormedDigests(ps);
          ScanPackages(codecs, disk, root, ps)
  }

  /** `check_if_tag_is_valid`, given the descriptor that metadata lookup
      resolved the name to: the negation of `CheckIfSdpNeedsDownload`. A
      tag is valid when its descriptor is present and either unreadable or
      every blob it lists has the recorded digest. */
  function CheckIfTagIsValid(codecs: Env.Codecs, disk: Env.Disk, root: Path, resolved: Sdp): (r: Result<bool, Failure>)
    ensures r.Ok? <==> CheckIfSdpNeedsDownload(codecs, disk, root, resolved.md5).Ok?
    ensures r == Ok(true) ==> RapidStore.GetSdpPath(root, resolved) in disk
    ensures r == Ok(true) && DescriptorReadable(codecs, disk, root, resolved.md5) ==>
      DescriptorRecords(codecs, disk, root, resolved.md5).Ok? &&
      var ps := DescriptorRecords(codecs, disk, root, resolved.md5).value;
      forall k :: 0 <= k < |ps| ==> Matches(codecs, disk, root, ps[k])
    ensures r == Ok(false) ==>
      RapidStore.GetSdpPath(root, resolved) !in disk ||
      (DescriptorReadable(codecs, disk, root, resolved.md5) && DescriptorRecords(codecs, disk, root, resolved.md5).Ok? &&
       var ps := DescriptorRecords(codecs, disk, root, resolved.md5).value;
       exists k :: 0 <= k < |ps| && Readable(codecs, disk, root, ps[k]) && !Matches(codecs, disk, root, ps[k]))
  {
    var needs :- CheckIfSdpNeedsDownload(codecs, disk, root, resolved.md5);
    Ok(!needs)
  }

  /** The check made on one blob after it is written: the pool file is
      missing, does not decompress (`Corrupt`), or decompresses to contents
      with another digest (`WrongHash`). The body of
      `validate_sdp_package` is not part of this model; this follows the
      `FileError` kinds its callers distinguish. */
  function ValidateSdpPackage(codecs: Env.Codecs, disk: Env.Disk, root: Path, p: SdpPackage): (r: Option<FileError>)
    requires |p.md5Bin| == Parsing.MD5_LEN
    ensures r.None? <==> Matches(codecs, disk, root, p)
    ensures r == Some(Missing) <==> RapidStore.Absent(root, disk, p)
    ensures r == Some(Corrupt) <==> !RapidStore.Absent(root, disk, p) && !Readable(codecs, disk, root, p)
  {
    var path := RapidStore.GetPoolPath(root, p);
    if path !in disk then Some(Missing)
    else match codecs.gunzip(disk[path])
      case None => Some(Corrupt)
      case Some(data) => if codecs.md5(data) != p.md5Bin then Some(WrongHash) else None
  }
}
