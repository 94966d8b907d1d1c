/** The content store under a root folder: where the registry, the
    version lists, the descriptor files and the pool blobs live, which
    blobs are missing, and the download bitmap sent to the streamer.
    Source: src/rapid/rapid_store.rs. */
module RapidStore {
  import opened Wrappers
  import opened Bytes
  import opened Types
  import opened Text
  import Env
  import Parsing
  import Seqs

  /** `PathBuf::join` of a relative path onto the root folder. */
  function JoinPath(root: Path, rel: string): Path {
    root + "/" + rel
  }

  /** A path inside the root folder. */
  predicate Under(root: Path, path: Path) {
    |path| > |root| + 1 && path[..|root| + 1] == root + "/"
  }

  lemma JoinPathInjective(root: Path, a: string, b: string)
    requires JoinPath(root, a) == JoinPath(root, b)
    ensures a == b
  {
    var n := |root| + 1;
    assert a == JoinPath(root, a)[n..];
    assert b == JoinPath(root, b)[n..];
  }

  const REGISTRY_HOST: string := "repos.springrts.com"

  /** `get_registry_path`: a fixed location under the root. */
  function GetRegistryPath(root: Path): (r: Path)
    ensures Under(root, r) && |r| == |root| + 35
  {
    JoinPath(root, "rapid/" + REGISTRY_HOST + "/repos.gz")
  }

  const HTTP: string := "http://"
  const HTTPS: string := "https://"

  /** `get_repo_path`: the URL is split on `http://`; unless that gives
      exactly two parts it is split on `https://` instead, and the second
      part names the folder. A URL with neither scheme has no second part
      and the indexing panics. */
  function GetRepoPath(root: Path, repo: Repo): (r: Result<Path, Failure>)
    ensures r.Err? ==> r.error.Panic?
  {
    var httpSplit := Split(repo.url, HTTP);
    var parts := if |httpSplit| != 2 then Split(repo.url, HTTPS) else httpSplit;
    if |parts| < 2 then Err(Panic("repository URL has no scheme to strip"))
    else Ok(JoinPath(root, "rapid/" + parts[1] + "/versions.gz"))
  }

  /** The folder that a repository's version list is stored in. */
  function VersionsPath(root: Path, folder: string): Path {
    JoinPath(root, "rapid/" + folder + "/versions.gz")
  }

  lemma SplitAbsent(s: string, pat: string)
    requires |pat| > 0 && !Contains(s, pat)
    ensures Split(s, pat) == [s]
  {
  }

  /** `http://host/path` is stored under `rapid/host/path`. */
  lemma RepoPathOfHttpUrl(root: Path, repo: Repo, rest: string)
    requires repo.url == HTTP + rest && !Contains(rest, HTTP)
    ensures GetRepoPath(root, repo) == Ok(VersionsPath(root, rest))
  {
    SplitLeading(HTTP, rest);
    SplitAbsent(rest, HTTP);
  }

  /** `https://host/path` is stored under `rapid/host/path`. */
  lemma RepoPathOfHttpsUrl(root: Path, repo: Repo, rest: string)
    requires repo.url == HTTPS + rest && !Contains(rest, HTTP) && !Contains(rest, HTTPS)
    ensures GetRepoPath(root, repo) == Ok(VersionsPath(root, rest))
  {
    HttpsUrlHasNoHttp(rest);
    SplitAbsent(repo.url, HTTP);
    SplitLeading(HTTPS, rest);
    SplitAbsent(rest, HTTPS);
  }

  lemma HttpsUrlHasNoHttp(rest: string)
    requires !Contains(rest, HTTP)
    ensures !Contains(HTTPS + rest, HTTP)
  {
    var s := HTTPS + rest;
    forall j: nat | j <= |s|
      ensures !OccursAt(s, HTTP, j)
    {
      if j == 0 {
        assert s[4] != HTTP[4];
      } else if j < |HTTPS| {
        if j + |HTTP| <= |s| {
          assert s[j] == HTTPS[j];
          assert s[j..j + |HTTP|][0] == s[j];
        }
      } else {
        OccursAfterPrefix(HTTPS, rest, HTTP, j);
      }
    }
  }

  /** Past a prefix, an occurrence is an occurrence in the rest. */
  lemma OccursAfterPrefix(prefix: string, rest: string, pat: string, j: nat)
    requires |prefix| <= j
    ensures OccursAt(prefix + rest, pat, j) <==> OccursAt(rest, pat, j - |prefix|)
  {
    var s := prefix + rest;
    if j + |pat| <= |s| {
      assert s[j..j + |pat|] == rest[j - |prefix|..j - |prefix| + |pat|];
    }
  }

  /** A URL with neither scheme makes `get_repo_path` panic. */
  lemma RepoPathWithoutScheme(root: Path, repo: Repo)
    requires !Contains(repo.url, HTTP) && !Contains(repo.url, HTTPS)
    ensures GetRepoPath(root, repo).Err?
  {
    SplitAbsent(repo.url, HTTP);
    SplitAbsent(repo.url, HTTPS);
  }

  /** `get_sdp_path_from_md5`. */
  function GetSdpPathFromMd5(root: Path, md5: string): (r: Path)
    ensures Under(root, r) && |r| == |root| + |md5| + 14
    ensures r[|r| - 4..] == ".sdp"
  {
    JoinPath(root, "packages/" + md5 + ".sdp")
  }

  /** `get_sdp_path`: the descriptor file named by the version entry's
      md5 text. */
  function GetSdpPath(root: Path, sdp: Sdp): (r: Path)
    ensures Under(root, r) && |r| == |root| + |sdp.md5| + 14
    ensures r[|r| - 4..] == ".sdp"
  {
    GetSdpPathFromMd5(root, sdp.md5)
  }

  /** Distinct descriptor names are stored in distinct files. */
  lemma SdpPathInjective(root: Path, a: string, b: string)
    ensures GetSdpPathFromMd5(root, a) == GetSdpPathFromMd5(root, b) <==> a == b
  {
    if GetSdpPathFromMd5(root, a) == GetSdpPathFromMd5(root, b) {
      JoinPathInjective(root, "packages/" + a + ".sdp", "packages/" + b + ".sdp");
      var x, y := "packages/" + a + ".sdp", "packages/" + b + ".sdp";
      assert |a| == |b|;
      assert a == x[9..9 + |a|];
      assert b == y[9..9 + |b|];
    }
  }

  /** The pool file name of a 32-digit hex digest: the first two digits
      name the shard folder, the remaining thirty the file. */
  function PoolRel(hex: string): string
    requires |hex| == 32
  {
    "pool/" + [hex[0], hex[1]] + "/" + hex[2..32] + ".gz"
  }

  /** `get_pool_path`. It reads nothing but the digest. */
  function GetPoolPath(root: Path, p: SdpPackage): Path
    requires |p.md5Bin| == Parsing.MD5_LEN
  {
    JoinPath(root, PoolRel(p.Md5()))
  }

  /** Every pool path lies under the root, has the same length and ends
      in `.gz`. */
  lemma PoolPathShape(root: Path, p: SdpPackage)
    requires |p.md5Bin| == Parsing.MD5_LEN
    ensures var r := GetPoolPath(root, p);
      Under(root, r) && |r| == |root| + 42 && r[|r| - 3..] == ".gz"
  {
  }

  /** The store's areas never overlap: the registry, a version list, a
      descriptor file and a pool blob always have different paths, so
      writing one never touches another. */
  lemma StoreAreasDisjoint(root: Path, folder: string, md5: string, p: SdpPackage)
    requires |p.md5Bin| == Parsing.MD5_LEN
    ensures GetRegistryPath(root) != VersionsPath(root, folder)
    ensures GetRegistryPath(root) != GetSdpPathFromMd5(root, md5)
    ensures GetRegistryPath(root) != GetPoolPath(root, p)
    ensures VersionsPath(root, folder) != GetSdpPathFromMd5(root, md5)
    ensures VersionsPath(root, folder) != GetPoolPath(root, p)
    ensures GetSdpPathFromMd5(root, md5) != GetPoolPath(root, p)
  {
    var n := |root| + 1;
    var reg, ver := GetRegistryPath(root), VersionsPath(root, folder);
    var sdp, pool := GetSdpPathFromMd5(root, md5), GetPoolPath(root, p);
    assert reg[n] == 'r' && ver[n] == 'r' && sdp[n] == 'p' && pool[n] == 'p';
    assert sdp[n + 1] == 'a' && pool[n + 1] == 'o';
    assert reg[|reg| - 11] == 'o' && ver[|ver| - 11] == 'v';
  }

  /** Two records share a pool file exactly when they have the same digest,
      whatever their names, sizes and checksums. */
  lemma PoolPathIdentifiesDigest(root: Path, p: SdpPackage, q: SdpPackage)
    requires |p.md5Bin| == Parsing.MD5_LEN && |q.md5Bin| == Parsing.MD5_LEN
    ensures GetPoolPath(root, p) == GetPoolPath(root, q) <==> p.md5Bin == q.md5Bin
  {
    if GetPoolPath(root, p) == GetPoolPath(root, q) {
      var a, b := p.Md5(), q.Md5();
      JoinPathInjective(root, PoolRel(a), PoolRel(b));
      var x, y := PoolRel(a), PoolRel(b);
      assert x[5] == a[0] && x[6] == a[1] && y[5] == b[0] && y[6] == b[1];
      assert x[8..38] == a[2..32] && y[8..38] == b[2..32];
      assert a == [a[0], a[1]] + a[2..32];
      assert b == [b[0], b[1]] + b[2..32];
      Hex.EncodeInjective(p.md5Bin, q.md5Bin);
    }
  }

  // ---------------------------------------------------------------------
  // Missing files

  predicate Absent(root: Path, disk: Env.Disk, p: SdpPackage)
    requires |p.md5Bin| == Parsing.MD5_LEN
  {
    GetPoolPath(root, p) !in disk
  }

  predicate DigestsWellSized(files: seq<SdpPackage>) {
    forall k :: 0 <= k < |files| ==> |files[k].md5Bin| == Parsing.MD5_LEN
  }

  /** The positions of the absent files, from `from` on, in increasing order. */
  function MissingIndicesFrom(root: Path, disk: Env.Disk, files: seq<SdpPackage>, from: nat): (idx: seq<nat>)
    requires DigestsWellSized(files)
    ensures forall k :: 0 <= k < |idx| ==> from <= idx[k] < |files|
    decreases |files| - from
  {
    if from >= |files| then []
    else if Absent(root, disk, files[from]) then [from] + MissingIndicesFrom(root, disk, files, from + 1)
    else MissingIndicesFrom(root, disk, files, from + 1)
  }

  predicate Increasing(idx: seq<nat>) {
    forall k, l :: 0 <= k < l < |idx| ==> idx[k] < idx[l]
  }

  /** The positions are listed in increasing order. */
  lemma {:induction false} MissingIndicesIncreasing(root: Path, disk: Env.Disk, files: seq<SdpPackage>, from: nat)
    requires DigestsWellSized(files)
    ensures Increasing(MissingIndicesFrom(root, disk, files, from))
    decreases |files| - from
  {
    if from < |files| {
      MissingIndicesIncreasing(root, disk, files, from + 1);
      var idx := MissingIndicesFrom(root, disk, files, from);
      var tail := MissingIndicesFrom(root, disk, files, from + 1);
      if Absent(root, disk, files[from]) {
        assert idx == [from] + tail;
        forall k, l | 0 <= k < l < |idx| ensures idx[k] < idx[l] {
          assert idx[l] == tail[l - 1] && from + 1 <= tail[l - 1];
          if k > 0 {
            assert idx[k] == tail[k - 1];
          } else {
            assert idx[k] == from;
          }
        }
      } else {
        assert idx == tail;
      }
    }
  }

  /** Only absent files are listed. */
  lemma {:induction false} MissingIndicesAbsent(root: Path, disk: Env.Disk, files: seq<SdpPackage>, from: nat, k: nat)
    requires DigestsWellSized(files) && k < |MissingIndicesFrom(root, disk, files, from)|
    ensures Absent(root, disk, files[MissingIndicesFrom(root, disk, files, from)[k]])
    decreases |files| - from
  {
    if from < |files| {
      var tail := MissingIndicesFrom(root, disk, files, from + 1);
      if Absent(root, disk, files[from]) {
        assert MissingIndicesFrom(root, disk, files, from) == [from] + tail;
        if k > 0 {
          MissingIndicesAbsent(root, disk, files, from + 1, k - 1);
        }
      } else {
        MissingIndicesAbsent(root, disk, files, from + 1, k);
      }
    }
  }

  /** Every absent file from `from` on is listed. */
  lemma {:induction false} MissingIndicesComplete(root: Path, disk: Env.Disk, files: seq<SdpPackage>, from: nat, i: nat)
    requires DigestsWellSized(files) && from <= i < |files| && Absent(root, disk, files[i])
    ensures i in MissingIndicesFrom(root, disk, files, from)
    decreases i - from
  {
    if from < i {
      MissingIndicesComplete(root, disk, files, from + 1, i);
    }
  }

  function MissingIndices(root: Path, disk: Env.Disk, files: seq<SdpPackage>): seq<nat>
    requires DigestsWellSized(files)
  {
    MissingIndicesFrom(root, disk, files, 0)
  }

  /** `find_missing_files`: the records whose pool file does not exist,
      in the order of the descriptor. */
  function FindMissingFiles(root: Path, disk: Env.Disk, files: seq<SdpPackage>): (missing: seq<SdpPackage>)
    requires DigestsWellSized(files)
    ensures |missing| == |MissingIndices(root, disk, files)|
    ensures forall k :: 0 <= k < |missing| ==> missing[k] == files[MissingIndices(root, disk, files)[k]]
    ensures DigestsWellSized(missing)
  {
    var idx := MissingIndices(root, disk, files);
    seq(|idx|, k requires 0 <= k < |idx| => files[idx[k]])
  }

  /** Bit `i % 8` of byte `i / 8`. */
  predicate BitSet(bitmap: seq<bv8>, i: nat) {
    i / 8 < |bitmap| && (bitmap[i / 8] >> (i % 8)) & 1 == 1
  }

  /** `get_missing_files_indices`: one bit per record, set when its pool
      file is absent. The map has `n / 8 + 1` bytes (one more than needed
      when `n` is a multiple of 8), and every bit past the last record is
      clear. */
  method GetMissingFilesIndices(root: Path, disk: Env.Disk, files: seq<SdpPackage>) returns (bitmap: seq<bv8>)
    requires DigestsWellSized(files)
    ensures |bitmap| == |files| / 8 + 1
    ensures forall i: nat :: i < 8 * |bitmap| ==> (BitSet(bitmap, i) <==> i < |files| && Absent(root, disk, files[i]))
    ensures Popcount(bitmap) == |FindMissingFiles(root, disk, files)|
  {
    bitmap := seq(|files| / 8 + 1, _ => 0);
    var i := 0;
    while i < |files|
      invariant 0 <= i <= |files|
      invariant |bitmap| == |files| / 8 + 1
      invariant forall j: nat :: j < 8 * |bitmap| ==> (BitSet(bitmap, j) <==> j < i && Absent(root, disk, files[j]))
    {
      if Absent(root, disk, files[i]) {
        var old_ := bitmap;
        bitmap := bitmap[i / 8 := bitmap[i / 8] | (1 << (i % 8))];
        forall j: nat | j < 8 * |bitmap|
          ensures BitSet(bitmap, j) <==> j < i + 1 && Absent(root, disk, files[j])
        {
          SetBitOnly(old_, i, j);
        }
      }
      i := i + 1;
    }
    PopcountOfBitmap(root, disk, files, bitmap);
  }

  /** Setting bit `i` sets that bit and leaves every other. */
  lemma SetBitOnly(bitmap: seq<bv8>, i: nat, j: nat)
    requires i / 8 < |bitmap|
    ensures BitSet(bitmap[i / 8 := bitmap[i / 8] | (1 << (i % 8))], j) <==> j == i || BitSet(bitmap, j)
  {
    if j / 8 == i / 8 {
      OrBit(bitmap[i / 8], i % 8, j % 8);
      if j % 8 == i % 8 {
        assert j == i;
      }
    }
  }

  lemma OrBit(b: bv8, k: nat, j: nat)
    requires k < 8 && j < 8
    ensures ((b | (1 << k)) >> j) & 1 == 1 <==> j == k || (b >> j) & 1 == 1
  {
  }

  /** Number of set bits among the first `k` positions. */
  function CountBits(bitmap: seq<bv8>, k: nat): nat {
    if k == 0 then 0 else CountBits(bitmap, k - 1) + (if BitSet(bitmap, k - 1) then 1 else 0)
  }

  /** Number of set bits in the whole map. */
  function Popcount(bitmap: seq<bv8>): nat {
    CountBits(bitmap, 8 * |bitmap|)
  }

  /** Number of absent records among the first `k`. */
  function CountAbsent(root: Path, disk: Env.Disk, files: seq<SdpPackage>, k: nat): nat
    requires DigestsWellSized(files) && k <= |files|
  {
    if k == 0 then 0 else CountAbsent(root, disk, files, k - 1) + (if Absent(root, disk, files[k - 1]) then 1 else 0)
  }

  /** Bit `i` of the map is set exactly for the absent records. */
  predicate BitsMatch(root: Path, disk: Env.Disk, files: seq<SdpPackage>, bitmap: seq<bv8>)
    requires DigestsWellSized(files)
  {
    forall i: nat :: i < 8 * |bitmap| ==> (BitSet(bitmap, i) <==> i < |files| && Absent(root, disk, files[i]))
  }

  lemma {:induction false} CountBitsMatches(root: Path, disk: Env.Disk, files: seq<SdpPackage>, bitmap: seq<bv8>, k: nat)
    requires DigestsWellSized(files) && BitsMatch(root, disk, files, bitmap)
    requires |files| <= 8 * |bitmap| && k <= 8 * |bitmap|
    ensures CountBits(bitmap, k) == CountAbsent(root, disk, files, if k < |files| then k else |files|)
  {
    if k > 0 {
      CountBitsMatches(root, disk, files, bitmap, k - 1);
      var i: nat := k - 1;
      var bit := BitSet(bitmap, i);
      assert bit <==> i < |files| && Absent(root, disk, files[i]);
      if i < |files| {
        assert bit <==> Absent(root, disk, files[i]);
        CountBitsStep(root, disk, files, bitmap, i);
      } else {
        assert !bit;
      }
    }
  }

  /** Position `i` adds one to both counts or to neither. */
  lemma CountBitsStep(root: Path, disk: Env.Disk, files: seq<SdpPackage>, bitmap: seq<bv8>, i: nat)
    requires DigestsWellSized(files) && i < |files|
    requires BitSet(bitmap, i) <==> Absent(root, disk, files[i])
    requires CountBits(bitmap, i) == CountAbsent(root, disk, files, i)
    ensures CountBits(bitmap, i + 1) == CountAbsent(root, disk, files, i + 1)
  {
  }

  lemma {:induction false} CountAbsentFrom(root: Path, disk: Env.Disk, files: seq<SdpPackage>, from: nat)
    requires DigestsWellSized(files) && from <= |files|
    ensures CountAbsent(root, disk, files, |files|) == CountAbsent(root, disk, files, from) + |MissingIndicesFrom(root, disk, files, from)|
    decreases |files| - from
  {
    if from < |files| {
      CountAbsentFrom(root, disk, files, from + 1);
      MissingIndicesStep(root, disk, files, from);
    }
  }

  lemma MissingIndicesStep(root: Path, disk: Env.Disk, files: seq<SdpPackage>, from: nat)
    requires DigestsWellSized(files) && from < |files|
    ensures |MissingIndicesFrom(root, disk, files, from)|
      == (if Absent(root, disk, files[from]) then 1 else 0) + |MissingIndicesFrom(root, disk, files, from + 1)|
  {
  }

  /** The number of set bits equals the number of files the stream will
      carry. */
  lemma PopcountOfBitmap(root: Path, disk: Env.Disk, files: seq<SdpPackage>, bitmap: seq<bv8>)
    requires DigestsWellSized(files)
    requires |bitmap| == |files| / 8 + 1
    requires forall i: nat :: i < 8 * |bitmap| ==> (BitSet(bitmap, i) <==> i < |files| && Absent(root, disk, files[i]))
    ensures Popcount(bitmap) == |FindMissingFiles(root, disk, files)|
  {
    CountBitsMatches(root, disk, files, bitmap, 8 * |bitmap|);
    CountAbsentFrom(root, disk, files, 0);
  }

  /** The bitmap has a set bit exactly when some file is missing, which is
      what the stream decoder asserts before it sends a request. */
  lemma BitmapNonZeroIffMissing(root: Path, disk: Env.Disk, files: seq<SdpPackage>, bitmap: seq<bv8>)
    requires DigestsWellSized(files)
    requires forall i: nat :: i < 8 * |bitmap| ==> (BitSet(bitmap, i) <==> i < |files| && Absent(root, disk, files[i]))
    requires |files| <= 8 * |bitmap|
    ensures (exists k :: 0 <= k < |bitmap| && bitmap[k] != 0) <==> |FindMissingFiles(root, disk, files)| > 0
  {
    if exists k :: 0 <= k < |bitmap| && bitmap[k] != 0 {
      var k :| 0 <= k < |bitmap| && bitmap[k] != 0;
      NonZeroByteMeansMissing(root, disk, files, bitmap, k);
    }
    if |FindMissingFiles(root, disk, files)| > 0 {
      MissingMeansNonZeroByte(root, disk, files, bitmap);
    }
  }

  lemma NonZeroByteMeansMissing(root: Path, disk: Env.Disk, files: seq<SdpPackage>, bitmap: seq<bv8>, k: nat)
    requires DigestsWellSized(files)
    requires forall i: nat :: i < 8 * |bitmap| ==> (BitSet(bitmap, i) <==> i < |files| && Absent(root, disk, files[i]))
    requires k < |bitmap| && bitmap[k] != 0
    ensures |FindMissingFiles(root, disk, files)| > 0
  {
    var b := NonZeroHasBit(bitmap[k]);
    var i: nat := 8 * k + b;
    assert BitSet(bitmap, i) by {
      assert i / 8 == k && i % 8 == b;
    }
    MissingIndicesComplete(root, disk, files, 0, i);
  }

  lemma MissingMeansNonZeroByte(root: Path, disk: Env.Disk, files: seq<SdpPackage>, bitmap: seq<bv8>)
    requires DigestsWellSized(files)
    requires forall i: nat :: i < 8 * |bitmap| ==> (BitSet(bitmap, i) <==> i < |files| && Absent(root, disk, files[i]))
    requires |files| <= 8 * |bitmap|
    requires |FindMissingFiles(root, disk, files)| > 0
    ensures exists k :: 0 <= k < |bitmap| && bitmap[k] != 0
  {
    var i := MissingIndices(root, disk, files)[0];
    MissingIndicesAbsent(root, disk, files, 0, 0);
    assert BitSet(bitmap, i);
    assert bitmap[i / 8] != 0;
  }

  lemma NonZeroHasBit(b: bv8) returns (k: nat)
    requires b != 0
    ensures k < 8 && (b >> k) & 1 == 1
  {
    if (b >> 0) & 1 == 1 { k := 0; }
    else if (b >> 1) & 1 == 1 { k := 1; }
    else if (b >> 2) & 1 == 1 { k := 2; }
    else if (b >> 3) & 1 == 1 { k := 3; }
    else if (b >> 4) & 1 == 1 { k := 4; }
    else if (b >> 5) & 1 == 1 { k := 5; }
    else if (b >> 6) & 1 == 1 { k := 6; }
    else { k := 7; }
  }

  // ---------------------------------------------------------------------
  // Looking up a descriptor

  predicate NameMatches(sdp: Sdp, name: string) {
    sdp.fullname == name || sdp.alias == name
  }

  /** The first descriptor, in file order, whose full name or alias is
      exactly `name`. */
  function FirstByName(sdps: seq<Sdp>, name: string): Option<Sdp> {
    match Seqs.FirstIndex(sdps, (s: Sdp) => NameMatches(s, name), 0)
    case None => None
    case Some(i) => Some(sdps[i])
  }

  /** The version list `find_sdp` reads: the registry host is written into
      the path and the folder is the repository's name, not its URL. */
  function FindSdpVersionsPath(root: Path, repo: Repo): Path {
    VersionsPath(root, REGISTRY_HOST + "/" + repo.name)
  }

  /** `find_sdp`: the first entry of the repository's version list whose
      full name or alias equals `name`. */
  function FindSdp(codecs: Env.Codecs, disk: Env.Disk, root: Path, repo: Repo, name: string): (r: Result<Option<Sdp>, Failure>)
    ensures r.Err? <==> Parsing.ReadRapidFromFile(codecs, disk, FindSdpVersionsPath(root, repo)).Err?
    ensures r.Ok? ==> var sdps := Parsing.ReadRapidFromFile(codecs, disk, FindSdpVersionsPath(root, repo)).value;
      && (r.value.Some? ==> exists k :: 0 <= k < |sdps| && sdps[k] == r.value.value && NameMatches(sdps[k], name)
                              && forall j :: 0 <= j < k ==> !NameMatches(sdps[j], name))
      && (r.value.None? <==> forall k :: 0 <= k < |sdps| ==> !NameMatches(sdps[k], name))
  {
    var sdps :- Parsing.ReadRapidFromFile(codecs, disk, FindSdpVersionsPath(root, repo));
    Ok(FirstByName(sdps, name))
  }

  /** `find_sdp` does not look at the repository's URL. */
  lemma FindSdpIgnoresUrl(codecs: Env.Codecs, disk: Env.Disk, root: Path, repo: Repo, url: string, name: string)
    ensures FindSdp(codecs, disk, root, repo, name) == FindSdp(codecs, disk, root, repo.(url := url), name)
  {
  }
}
