/** The older streamer client: instead of a buffering reader it runs a
    state machine over each chunk of the response body, assembling the
    4-byte big-endian length of the current blob across chunk boundaries
    and appending payload bytes to the current blob's pool file until the
    announced length is reached, then moving to the next missing blob.
    Source: src/download.rs. */
module LegacyDownload {
  import opened Wrappers
  import opened Bytes
  import opened Types
  import Env
  import Parsing
  import RapidStore
  import PoolDownloader

  // ---------------------------------------------------------------------
  // Choosing the next blob
  // ---------------------------------------------------------------------

  /** `get_next_dl_file`: the first position from `start` on whose pool
      file does not exist. */
  function NextMissing(root: Path, disk: Env.Disk, files: seq<SdpPackage>, start: nat): (r: Option<nat>)
    requires RapidStore.DigestsWellSized(files)
    ensures r.Some? ==> start <= r.value < |files|
    decreases |files| - start
  {
    if start >= |files| then None
    else if RapidStore.Absent(root, disk, files[start]) then Some(start)
    else NextMissing(root, disk, files, start + 1)
  }

  /** The position found is absent and every one before it from `start` on
      is present; none is found exactly when all from `start` on are
      present. */
  lemma {:induction false} NextMissingIsFirst(root: Path, disk: Env.Disk, files: seq<SdpPackage>, start: nat)
    requires RapidStore.DigestsWellSized(files)
    ensures var r := NextMissing(root, disk, files, start);
      && (r.Some? ==> RapidStore.Absent(root, disk, files[r.value]))
      && (r.Some? ==> forall j :: start <= j < r.value ==> !RapidStore.Absent(root, disk, files[j]))
      && (r.None? <==> forall j :: start <= j < |files| ==> !RapidStore.Absent(root, disk, files[j]))
    decreases |files| - start
  {
    if start < |files| && !RapidStore.Absent(root, disk, files[start]) {
      NextMissingIsFirst(root, disk, files, start + 1);
    }
  }

  // ---------------------------------------------------------------------
  // The state machine
  // ---------------------------------------------------------------------

  /** The source unwraps the lookup of the next blob after every completed
      one, so it panics once the last missing blob completes. `Corrected`
      stops in a finished state instead, counting any further bytes as
      left over. */
  datatype Mode = AsWritten | Corrected

  /** The machine's state: the position of the current blob, the length
      bytes read so far (`read_amount` is their count), the announced
      length (`size`, zero until all four bytes are in), the payload bytes
      written (`file_read_size`), the files on disk, whether the machine
      has finished (only in `Corrected` mode), and the bytes received
      after finishing. */
  datatype Legacy = Legacy(index: nat, lenBytes: seq<byte>, size: nat, fileRead: nat,
                           disk: Env.Disk, done: bool, leftover: nat)

  /** How a run that stops early ends: the failure, and the files it
      leaves behind (created and partly written pool files stay on disk). */
  datatype Halt = Halt(failure: Failure, disk: Env.Disk)

  /** The panic of `unwrap()` on a lookup that found no blob. */
  const UnwrapNone: Failure := Panic("called `Option::unwrap()` on a `None` value")

  const LENGTH_SIZE: nat := 4

  function Min(a: nat, b: nat): nat {
    if a < b then a else b
  }

  /** The pool path of the current blob. */
  function Dest(root: Path, files: seq<SdpPackage>, st: Legacy): Path
    requires RapidStore.DigestsWellSized(files) && st.index < |files|
  {
    RapidStore.GetPoolPath(root, files[st.index])
  }

  /** What holds between any two steps: the length is set exactly when
      all four of its bytes have arrived, no more payload has been written
      than it announces, and the current blob's file exists and has as
      many bytes as the payload written so far. */
  predicate Inv(root: Path, files: seq<SdpPackage>, st: Legacy) {
    && RapidStore.DigestsWellSized(files)
    && (!st.done ==>
          && st.index < |files|
          && |st.lenBytes| <= LENGTH_SIZE
          && st.fileRead <= st.size
          && (|st.lenBytes| < LENGTH_SIZE ==> st.size == 0 && st.fileRead == 0)
          && (|st.lenBytes| == LENGTH_SIZE ==> st.size == FromBigEndian(st.lenBytes))
          && Dest(root, files, st) in st.disk
          && |st.disk[Dest(root, files, st)]| == st.fileRead)
  }

  /** The state on starting blob `i`: its pool file is created empty and
      every counter is reset. */
  function Select(root: Path, files: seq<SdpPackage>, disk: Env.Disk, i: nat, leftover: nat): (st: Legacy)
    requires RapidStore.DigestsWellSized(files) && i < |files|
    ensures Inv(root, files, st) && !st.done && st.lenBytes == [] && st.disk[Dest(root, files, st)] == []
  {
    Legacy(i, [], 0, 0, disk[RapidStore.GetPoolPath(root, files[i]) := []], false, leftover)
  }

  /** After a blob completes: start the next missing one, or, when there
      is none, panic (as written) or finish (corrected). */
  function Advance(mode: Mode, root: Path, files: seq<SdpPackage>, st: Legacy): (r: Result<Legacy, Halt>)
    requires RapidStore.DigestsWellSized(files) && !st.done && st.index < |files|
    ensures r.Ok? ==> Inv(root, files, r.value)
    ensures r.Err? <==> mode == AsWritten && NextMissing(root, st.disk, files, st.index + 1).None?
    ensures r.Err? ==> r.error.failure.Panic?
  {
    match NextMissing(root, st.disk, files, st.index + 1)
    case None =>
      if mode == AsWritten then Err(Halt(UnwrapNone, st.disk))
      else Ok(st.(lenBytes := [], size := 0, fileRead := 0, done := true))
    case Some(j) => Ok(Select(root, files, st.disk, j, st.leftover))
  }

  /** The inner loop over one chunk (`while chunk_index < chunk.len()`):
      each step either moves up to the missing number of length bytes
      into `lenBytes`, or appends up to the rest of the payload to the
      current blob's file, advancing when the payload is complete. */
  function Feed(mode: Mode, root: Path, files: seq<SdpPackage>, st: Legacy, chunk: seq<byte>): (r: Result<Legacy, Halt>)
    requires Inv(root, files, st)
    ensures r.Ok? ==> Inv(root, files, r.value)
    ensures r.Err? ==> mode == AsWritten && r.error.failure.Panic?
    decreases |chunk|, if st.done || |st.lenBytes| < LENGTH_SIZE then 0 else 1
  {
    if |chunk| == 0 then Ok(st)
    else if st.done then Ok(st.(leftover := st.leftover + |chunk|))
    else if |st.lenBytes| < LENGTH_SIZE then
      var k := Min(|chunk|, LENGTH_SIZE - |st.lenBytes|);
      var lenBytes := st.lenBytes + chunk[..k];
      var size := if |lenBytes| == LENGTH_SIZE then FromBigEndian(lenBytes) else st.size;
      Feed(mode, root, files, st.(lenBytes := lenBytes, size := size), chunk[k..])
    else
      var k := Min(|chunk|, st.size - st.fileRead);
      var dest := Dest(root, files, st);
      var st1 := st.(disk := st.disk[dest := st.disk[dest] + chunk[..k]], fileRead := st.fileRead + k);
      if st1.fileRead == st1.size then
        match Advance(mode, root, files, st1)
        case Err(e) => Err(e)
        case Ok(st2) => Feed(mode, root, files, st2, chunk[k..])
      else Feed(mode, root, files, st1, chunk[k..])
  }

  /** The outer loop over the response body (`while let Some(next)`): a
      transport error ends it with that error and each chunk is fed
      whole. */
  function FeedAll(mode: Mode, root: Path, files: seq<SdpPackage>, st: Legacy, chunks: seq<PoolDownloader.Chunk>): (r: Result<Legacy, Halt>)
    requires Inv(root, files, st)
    ensures r.Ok? ==> Inv(root, files, r.value)
    ensures r.Err? ==> r.error.failure == NetworkError || (mode == AsWritten && r.error.failure.Panic?)
    ensures PoolDownloader.AllData(chunks) ==> r.Err? ==> r.error.failure.Panic?
    decreases |chunks|
  {
    if |chunks| == 0 then Ok(st)
    else match chunks[0]
      case Broken => Err(Halt(NetworkError, st.disk))
      case Data(c) =>
        match Feed(mode, root, files, st, c)
        case Err(e) => Err(e)
        case Ok(st') => FeedAll(mode, root, files, st', chunks[1..])
  }

  /** The progress bar positions the outer loop sets: after each chunk
      has been fed whole, the running total of received bytes. A
      transport error or a panic inside a chunk ends the run before that
      chunk's position is set. */
  function Progress(mode: Mode, root: Path, files: seq<SdpPackage>, st: Legacy, chunks: seq<PoolDownloader.Chunk>, downloaded: nat): (ps: seq<nat>)
    requires Inv(root, files, st)
    ensures ps <= Cumulative(downloaded, chunks)
    ensures |ps| == |chunks| <==> FeedAll(mode, root, files, st, chunks).Ok?
    decreases |chunks|
  {
    if |chunks| == 0 then []
    else match chunks[0]
      case Broken => []
      case Data(c) =>
        match Feed(mode, root, files, st, c)
        case Err(_) => []
        case Ok(st') =>
          var rest := Progress(mode, root, files, st', chunks[1..], downloaded + |c|);
          assert |rest| <= |chunks[1..]|;
          [downloaded + |c|] + rest
  }

  /** Running totals of the chunk lengths, up to the first transport
      error. */
  function Cumulative(downloaded: nat, chunks: seq<PoolDownloader.Chunk>): (ps: seq<nat>)
    ensures |ps| <= |chunks|
    decreases |chunks|
  {
    if |chunks| == 0 then []
    else match chunks[0]
      case Broken => []
      case Data(c) => [downloaded + |c|] + Cumulative(downloaded + |c|, chunks[1..])
  }

  /** The k-th position is the number of body bytes in the first k+1
      chunks. */
  lemma {:induction false} CumulativeAt(downloaded: nat, chunks: seq<PoolDownloader.Chunk>, k: nat)
    requires k < |Cumulative(downloaded, chunks)|
    ensures Cumulative(downloaded, chunks)[k] == downloaded + |PoolDownloader.Flatten(chunks[..k + 1])|
    decreases k
  {
    var c := chunks[0].bytes;
    assert PoolDownloader.Flatten(chunks[..k + 1]) == c + PoolDownloader.Flatten(chunks[..k + 1][1..]);
    assert chunks[..k + 1][1..] == chunks[1..][..k];
    if k == 0 {
      assert PoolDownloader.Flatten(chunks[1..][..0]) == [];
    } else {
      CumulativeAt(downloaded + |c|, chunks[1..], k - 1);
      assert chunks[1..][..k - 1 + 1] == chunks[1..][..k];
    }
  }

  /** A run that ends without error has set one position per chunk, and
      the last is the length of the whole body. */
  lemma ProgressReachesBody(mode: Mode, root: Path, files: seq<SdpPackage>, st: Legacy, chunks: seq<PoolDownloader.Chunk>)
    requires Inv(root, files, st)
    requires FeedAll(mode, root, files, st, chunks).Ok? && |chunks| > 0
    ensures var ps := Progress(mode, root, files, st, chunks, 0);
      |ps| == |chunks| && ps[|chunks| - 1] == |PoolDownloader.Flatten(chunks)|
  {
    var ps := Progress(mode, root, files, st, chunks, 0);
    CumulativeAt(0, chunks, |chunks| - 1);
    assert chunks[..|chunks|] == chunks;
  }

  /** `download_sdp_files` from the first missing blob on, in either mode.
      No missing blob at all is a panic at the first `unwrap`. */
  function DownloadWith(mode: Mode, root: Path, disk: Env.Disk, files: seq<SdpPackage>, chunks: seq<PoolDownloader.Chunk>): (r: Result<Legacy, Halt>)
    requires RapidStore.DigestsWellSized(files)
    ensures NextMissing(root, disk, files, 0).None? ==> r.Err? && r.error.failure.Panic? && r.error.disk == disk
  {
    match NextMissing(root, disk, files, 0)
    case None => Err(Halt(UnwrapNone, disk))
    case Some(i) => FeedAll(mode, root, files, Select(root, files, disk, i, 0), chunks)
  }

  /** The code as written. */
  function DownloadSdpFilesAsWritten(root: Path, disk: Env.Disk, files: seq<SdpPackage>, chunks: seq<PoolDownloader.Chunk>): (r: Result<Legacy, Halt>)
    requires RapidStore.DigestsWellSized(files)
    ensures r.Err? ==> r.error.failure == NetworkError || r.error.failure.Panic?
    ensures PoolDownloader.AllData(chunks) ==> r.Err? ==> r.error.failure.Panic?
    ensures |RapidStore.FindMissingFiles(root, disk, files)| == 0 ==> r.Err? && r.error.failure.Panic?
  {
    NextIsFirstMissing(root, disk, files, 0);
    DownloadWith(AsWritten, root, disk, files, chunks)
  }

  /** The code as evidently intended: the stream may end after the last
      missing blob. */
  function DownloadSdpFiles(root: Path, disk: Env.Disk, files: seq<SdpPackage>, chunks: seq<PoolDownloader.Chunk>): (r: Result<Legacy, Halt>)
    requires RapidStore.DigestsWellSized(files)
    ensures r.Err? ==> r.error.failure == NetworkError || r.error.failure.Panic?
    ensures r.Err? && r.error.failure.Panic? <==> |RapidStore.FindMissingFiles(root, disk, files)| == 0
    ensures PoolDownloader.AllData(chunks) ==> (r.Ok? <==> |RapidStore.FindMissingFiles(root, disk, files)| > 0)
  {
    NextIsFirstMissing(root, disk, files, 0);
    DownloadWith(Corrected, root, disk, files, chunks)
  }

  // ---------------------------------------------------------------------
  // A byte-at-a-time reference machine
  // ---------------------------------------------------------------------

  /** The machine driven one byte at a time: a length byte, a payload
      byte, or, when the current blob is already complete (an empty
      payload), advancing first and then taking the byte. */
  function Step(mode: Mode, root: Path, files: seq<SdpPackage>, st: Legacy, b: byte): (r: Result<Legacy, Halt>)
    requires Inv(root, files, st)
    ensures r.Ok? ==> Inv(root, files, r.value)
    decreases if st.done || |st.lenBytes| < LENGTH_SIZE then 0 else 1
  {
    if st.done then Ok(st.(leftover := st.leftover + 1))
    else if |st.lenBytes| < LENGTH_SIZE then
      var lenBytes := st.lenBytes + [b];
      Ok(st.(lenBytes := lenBytes, size := if |lenBytes| == LENGTH_SIZE then FromBigEndian(lenBytes) else st.size))
    else if st.fileRead < st.size then
      var dest := Dest(root, files, st);
      var st1 := st.(disk := st.disk[dest := st.disk[dest] + [b]], fileRead := st.fileRead + 1);
      if st1.fileRead == st1.size then Advance(mode, root, files, st1) else Ok(st1)
    else
      match Advance(mode, root, files, st)
      case Err(e) => Err(e)
      case Ok(st2) => Step(mode, root, files, st2, b)
  }

  /** The reference machine over a byte sequence. */
  function Fold(mode: Mode, root: Path, files: seq<SdpPackage>, st: Legacy, bytes: seq<byte>): (r: Result<Legacy, Halt>)
    requires Inv(root, files, st)
    ensures r.Ok? ==> Inv(root, files, r.value)
    decreases |bytes|
  {
    if |bytes| == 0 then Ok(st)
    else match Step(mode, root, files, st, bytes[0])
      case Err(e) => Err(e)
      case Ok(st') => Fold(mode, root, files, st', bytes[1..])
  }

  /** Continuing a run with more bytes. */
  function Then(mode: Mode, root: Path, files: seq<SdpPackage>, r: Result<Legacy, Halt>, bytes: seq<byte>): Result<Legacy, Halt>
    requires r.Ok? ==> Inv(root, files, r.value)
  {
    match r
    case Err(e) => Err(e)
    case Ok(st) => Fold(mode, root, files, st, bytes)
  }

  /** Running over `x + y` is running over `x`, then over `y`. */
  lemma {:induction false} FoldAppend(mode: Mode, root: Path, files: seq<SdpPackage>, st: Legacy, x: seq<byte>, y: seq<byte>)
    requires Inv(root, files, st)
    ensures Fold(mode, root, files, st, x + y) == Then(mode, root, files, Fold(mode, root, files, st, x), y)
    decreases |x|
  {
    if |x| == 0 {
      assert x + y == y;
    } else {
      assert (x + y)[0] == x[0];
      assert (x + y)[1..] == x[1..] + y;
      match Step(mode, root, files, st, x[0])
      case Err(_) =>
      case Ok(st') => FoldAppend(mode, root, files, st', x[1..], y);
    }
  }

  /** Once finished, the machine only counts bytes. */
  lemma {:induction false} FoldDone(mode: Mode, root: Path, files: seq<SdpPackage>, st: Legacy, bytes: seq<byte>)
    requires Inv(root, files, st) && st.done
    ensures Fold(mode, root, files, st, bytes) == Ok(st.(leftover := st.leftover + |bytes|))
    decreases |bytes|
  {
    if |bytes| > 0 {
      FoldDone(mode, root, files, st.(leftover := st.leftover + 1), bytes[1..]);
    }
  }

  /** Length bytes that do not overrun the prefix are collected. */
  lemma {:induction false} FoldLength(mode: Mode, root: Path, files: seq<SdpPackage>, st: Legacy, x: seq<byte>)
    requires Inv(root, files, st) && !st.done && |st.lenBytes| + |x| <= LENGTH_SIZE
    ensures var lenBytes := st.lenBytes + x;
      Fold(mode, root, files, st, x)
      == Ok(st.(lenBytes := lenBytes, size := if |lenBytes| == LENGTH_SIZE then FromBigEndian(lenBytes) else st.size))
    decreases |x|
  {
    if |x| == 0 {
      assert st.lenBytes + x == st.lenBytes;
    } else {
      var lenBytes := st.lenBytes + [x[0]];
      var st' := st.(lenBytes := lenBytes, size := if |lenBytes| == LENGTH_SIZE then FromBigEndian(lenBytes) else st.size);
      assert Fold(mode, root, files, st, x) == Fold(mode, root, files, st', x[1..]);
      FoldLength(mode, root, files, st', x[1..]);
      assert lenBytes + x[1..] == st.lenBytes + x;
    }
  }

  /** Payload bytes that do not overrun the announced length are appended
      to the current blob's file, and completing it advances. */
  lemma {:induction false} FoldPayload(mode: Mode, root: Path, files: seq<SdpPackage>, st: Legacy, x: seq<byte>)
    requires Inv(root, files, st) && !st.done && |st.lenBytes| == LENGTH_SIZE
    requires 0 < |x| <= st.size - st.fileRead
    ensures var dest := Dest(root, files, st);
      var st1 := st.(disk := st.disk[dest := st.disk[dest] + x], fileRead := st.fileRead + |x|);
      Fold(mode, root, files, st, x)
      == if st1.fileRead == st1.size then Advance(mode, root, files, st1) else Ok(st1)
    decreases |x|
  {
    var dest := Dest(root, files, st);
    var st1 := st.(disk := st.disk[dest := st.disk[dest] + [x[0]]], fileRead := st.fileRead + 1);
    if |x| > 1 {
      FoldPayload(mode, root, files, st1, x[1..]);
      assert Dest(root, files, st1) == dest;
      assert st1.disk[dest] + x[1..] == st.disk[dest] + x;
      assert st1.disk[dest := st1.disk[dest] + x[1..]] == st.disk[dest := st.disk[dest] + x];
    } else {
      assert x == [x[0]];
    }
  }

  /** A complete blob whose payload is empty advances on the next byte. */
  lemma FoldComplete(mode: Mode, root: Path, files: seq<SdpPackage>, st: Legacy, bytes: seq<byte>)
    requires Inv(root, files, st) && !st.done && |st.lenBytes| == LENGTH_SIZE && st.fileRead == st.size
    requires |bytes| > 0
    ensures Fold(mode, root, files, st, bytes) == Then(mode, root, files, Advance(mode, root, files, st), bytes)
  {
  }

  /** The chunk loop computes the byte-at-a-time machine. */
  lemma {:induction false} FeedIsFold(mode: Mode, root: Path, files: seq<SdpPackage>, st: Legacy, chunk: seq<byte>)
    requires Inv(root, files, st)
    ensures Feed(mode, root, files, st, chunk) == Fold(mode, root, files, st, chunk)
    decreases |chunk|, if st.done || |st.lenBytes| < LENGTH_SIZE then 0 else 1
  {
    if |chunk| == 0 {
    } else if st.done {
      FoldDone(mode, root, files, st, chunk);
    } else if |st.lenBytes| < LENGTH_SIZE {
      var k := Min(|chunk|, LENGTH_SIZE - |st.lenBytes|);
      var lenBytes := st.lenBytes + chunk[..k];
      var st' := st.(lenBytes := lenBytes, size := if |lenBytes| == LENGTH_SIZE then FromBigEndian(lenBytes) else st.size);
      LengthStep(mode, root, files, st, chunk);
      FeedIsFold(mode, root, files, st', chunk[k..]);
    } else {
      var k := Min(|chunk|, st.size - st.fileRead);
      PayloadStepFeed(mode, root, files, st, chunk);
      PayloadStepFold(mode, root, files, st, chunk);
      match PayloadNext(mode, root, files, st, chunk[..k])
      case Err(_) =>
      case Ok(st2) => FeedIsFold(mode, root, files, st2, chunk[k..]);
    }
  }

  /** One length step of the chunk loop, seen by both machines. */
  lemma LengthStep(mode: Mode, root: Path, files: seq<SdpPackage>, st: Legacy, chunk: seq<byte>)
    requires Inv(root, files, st) && !st.done && |st.lenBytes| < LENGTH_SIZE && |chunk| > 0
    ensures var k := Min(|chunk|, LENGTH_SIZE - |st.lenBytes|);
      var lenBytes := st.lenBytes + chunk[..k];
      var st' := st.(lenBytes := lenBytes, size := if |lenBytes| == LENGTH_SIZE then FromBigEndian(lenBytes) else st.size);
      && Feed(mode, root, files, st, chunk) == Feed(mode, root, files, st', chunk[k..])
      && Fold(mode, root, files, st, chunk) == Fold(mode, root, files, st', chunk[k..])
  {
    var k := Min(|chunk|, LENGTH_SIZE - |st.lenBytes|);
    assert chunk == chunk[..k] + chunk[k..];
    FoldAppend(mode, root, files, st, chunk[..k], chunk[k..]);
    FoldLength(mode, root, files, st, chunk[..k]);
  }

  /** The blob after a payload step of `k` bytes, and what comes next. */
  function PayloadNext(mode: Mode, root: Path, files: seq<SdpPackage>, st: Legacy, x: seq<byte>): (r: Result<Legacy, Halt>)
    requires Inv(root, files, st) && !st.done && |st.lenBytes| == LENGTH_SIZE && |x| <= st.size - st.fileRead
    ensures r.Ok? ==> Inv(root, files, r.value)
  {
    var dest := Dest(root, files, st);
    var st1 := st.(disk := st.disk[dest := st.disk[dest] + x], fileRead := st.fileRead + |x|);
    if st1.fileRead == st1.size then Advance(mode, root, files, st1) else Ok(st1)
  }

  /** One payload step of the chunk loop. */
  lemma PayloadStepFeed(mode: Mode, root: Path, files: seq<SdpPackage>, st: Legacy, chunk: seq<byte>)
    requires Inv(root, files, st) && !st.done && |st.lenBytes| == LENGTH_SIZE && |chunk| > 0
    ensures var k := Min(|chunk|, st.size - st.fileRead);
      Feed(mode, root, files, st, chunk)
      == match PayloadNext(mode, root, files, st, chunk[..k])
         case Err(e) => Err(e)
         case Ok(s) => Feed(mode, root, files, s, chunk[k..])
  {
  }

  /** The same step in the byte-at-a-time machine. */
  lemma PayloadStepFold(mode: Mode, root: Path, files: seq<SdpPackage>, st: Legacy, chunk: seq<byte>)
    requires Inv(root, files, st) && !st.done && |st.lenBytes| == LENGTH_SIZE && |chunk| > 0
    ensures var k := Min(|chunk|, st.size - st.fileRead);
      Fold(mode, root, files, st, chunk) == Then(mode, root, files, PayloadNext(mode, root, files, st, chunk[..k]), chunk[k..])
  {
    var k := Min(|chunk|, st.size - st.fileRead);
    var dest := Dest(root, files, st);
    if k == 0 {
      assert chunk[..k] == [];
      assert st.disk[dest] + chunk[..k] == st.disk[dest];
      assert st.disk[dest := st.disk[dest]] == st.disk;
      FoldComplete(mode, root, files, st, chunk);
    } else {
      assert chunk == chunk[..k] + chunk[k..];
      FoldAppend(mode, root, files, st, chunk[..k], chunk[k..]);
      FoldPayload(mode, root, files, st, chunk[..k]);
    }
  }

  /** Over a body that arrives without transport errors, the outer loop
      computes the byte-at-a-time machine over the concatenated body. */
  lemma {:induction false} FeedAllIsFold(mode: Mode, root: Path, files: seq<SdpPackage>, st: Legacy, chunks: seq<PoolDownloader.Chunk>)
    requires Inv(root, files, st) && PoolDownloader.AllData(chunks)
    ensures FeedAll(mode, root, files, st, chunks) == Fold(mode, root, files, st, PoolDownloader.Flatten(chunks))
    decreases |chunks|
  {
    if |chunks| > 0 {
      var c := chunks[0].bytes;
      assert PoolDownloader.Flatten(chunks) == c + PoolDownloader.Flatten(chunks[1..]);
      assert PoolDownloader.AllData(chunks[1..]) by {
        assert forall k :: 0 <= k < |chunks[1..]| ==> chunks[1..][k] == chunks[k + 1];
      }
      FeedIsFold(mode, root, files, st, c);
      FoldAppend(mode, root, files, st, c, PoolDownloader.Flatten(chunks[1..]));
      match Feed(mode, root, files, st, c)
      case Err(_) =>
      case Ok(st') => FeedAllIsFold(mode, root, files, st', chunks[1..]);
    }
  }

  /** A transport error ends the run with the files as the bytes before
      it left them, including the partly written file of the blob in
      progress. */
  lemma {:induction false} TransportErrorKeepsWrites(mode: Mode, root: Path, files: seq<SdpPackage>, st: Legacy,
                                                     a: seq<PoolDownloader.Chunk>, b: seq<PoolDownloader.Chunk>)
    requires Inv(root, files, st) && PoolDownloader.AllData(a)
    ensures FeedAll(mode, root, files, st, a + [PoolDownloader.Broken] + b)
         == match Fold(mode, root, files, st, PoolDownloader.Flatten(a))
            case Err(h) => Err(h)
            case Ok(s) => Err(Halt(NetworkError, s.disk))
    decreases |a|
  {
    var body := a + [PoolDownloader.Broken] + b;
    if |a| == 0 {
      assert body[0] == PoolDownloader.Broken;
      assert PoolDownloader.Flatten(a) == [];
    } else {
      var c := a[0].bytes;
      assert body[0] == a[0] && body[1..] == a[1..] + [PoolDownloader.Broken] + b;
      assert PoolDownloader.Flatten(a) == c + PoolDownloader.Flatten(a[1..]);
      assert PoolDownloader.AllData(a[1..]) by {
        assert forall k :: 0 <= k < |a[1..]| ==> a[1..][k] == a[k + 1];
      }
      FeedIsFold(mode, root, files, st, c);
      FoldAppend(mode, root, files, st, c, PoolDownloader.Flatten(a[1..]));
      match Feed(mode, root, files, st, c)
      case Err(_) =>
      case Ok(st') => TransportErrorKeepsWrites(mode, root, files, st', a[1..], b);
    }
  }

  /** How the response body is cut into chunks does not change what is
      stored or whether the download fails. */
  lemma LegacyChunkingDoesNotMatter(mode: Mode, root: Path, disk: Env.Disk, files: seq<SdpPackage>,
                                    a: seq<PoolDownloader.Chunk>, b: seq<PoolDownloader.Chunk>)
    requires RapidStore.DigestsWellSized(files)
    requires PoolDownloader.AllData(a) && PoolDownloader.AllData(b)
    requires PoolDownloader.Flatten(a) == PoolDownloader.Flatten(b)
    ensures DownloadWith(mode, root, disk, files, a) == DownloadWith(mode, root, disk, files, b)
  {
    match NextMissing(root, disk, files, 0)
    case None =>
    case Some(i) =>
      var st := Select(root, files, disk, i, 0);
      FeedAllIsFold(mode, root, files, st, a);
      FeedAllIsFold(mode, root, files, st, b);
  }

  // ---------------------------------------------------------------------
  // A streamer body, frame by frame
  // ---------------------------------------------------------------------

  /** No two records share a digest, so no two share a pool file. */
  predicate DistinctDigests(files: seq<SdpPackage>) {
    forall i, j :: 0 <= i < j < |files| ==> files[i].md5Bin != files[j].md5Bin
  }

  /** Every record whose pool file is absent has a digest no earlier
      record has: creating the file of an earlier record never makes a
      later missing one look present. */
  predicate LaterMissingDistinct(root: Path, disk: Env.Disk, files: seq<SdpPackage>)
    requires RapidStore.DigestsWellSized(files)
  {
    forall i, j :: 0 <= i < j < |files| && RapidStore.Absent(root, disk, files[j]) ==> files[i].md5Bin != files[j].md5Bin
  }

  /** Distinct digests among the missing records are enough: an earlier
      record that is present cannot share a digest with a later absent
      one, since they would share a pool file. */
  lemma MissingDistinctIsLaterMissingDistinct(root: Path, disk: Env.Disk, files: seq<SdpPackage>)
    requires RapidStore.DigestsWellSized(files)
    requires DistinctDigests(RapidStore.FindMissingFiles(root, disk, files))
    ensures LaterMissingDistinct(root, disk, files)
  {
    var mi := RapidStore.MissingIndices(root, disk, files);
    var missing := RapidStore.FindMissingFiles(root, disk, files);
    RapidStore.MissingIndicesIncreasing(root, disk, files, 0);
    forall i, j | 0 <= i < j < |files| && RapidStore.Absent(root, disk, files[j])
      ensures files[i].md5Bin != files[j].md5Bin
    {
      if RapidStore.Absent(root, disk, files[i]) {
        RapidStore.MissingIndicesComplete(root, disk, files, 0, i);
        RapidStore.MissingIndicesComplete(root, disk, files, 0, j);
        var a :| 0 <= a < |mi| && mi[a] == i;
        var b :| 0 <= b < |mi| && mi[b] == j;
        assert missing[a] == files[i] && missing[b] == files[j];
      } else {
        RapidStore.PoolPathIdentifiesDigest(root, files[i], files[j]);
      }
    }
  }

  /** Creating a file keeps the property: a record absent afterwards was
      absent before. */
  lemma LaterMissingDistinctAfterWrite(root: Path, disk: Env.Disk, files: seq<SdpPackage>, path: Path, v: seq<byte>)
    requires RapidStore.DigestsWellSized(files) && LaterMissingDistinct(root, disk, files)
    ensures LaterMissingDistinct(root, disk[path := v], files)
  {
  }

  /** The records at the given positions, in that order. */
  function Pick(files: seq<SdpPackage>, idx: seq<nat>): (r: seq<SdpPackage>)
    requires forall k :: 0 <= k < |idx| ==> idx[k] < |files|
    ensures |r| == |idx|
    ensures RapidStore.DigestsWellSized(files) ==> RapidStore.DigestsWellSized(r)
  {
    if |idx| == 0 then [] else
      var r := [files[idx[0]]] + Pick(files, idx[1..]);
      assert forall k :: 1 <= k < |r| ==> r[k] == Pick(files, idx[1..])[k - 1];
      r
  }

  /** The `k`-th record picked is the one at the `k`-th position. */
  lemma {:induction false} PickAt(files: seq<SdpPackage>, idx: seq<nat>, k: nat)
    requires forall k :: 0 <= k < |idx| ==> idx[k] < |files|
    requires k < |idx|
    ensures Pick(files, idx)[k] == files[idx[k]]
    decreases |idx|
  {
    if k > 0 {
      PickAt(files, idx[1..], k - 1);
    }
  }

  /** The records `find_missing_files` reports are those at the missing
      positions. */
  lemma PickMissing(root: Path, disk: Env.Disk, files: seq<SdpPackage>)
    requires RapidStore.DigestsWellSized(files)
    ensures Pick(files, RapidStore.MissingIndices(root, disk, files)) == RapidStore.FindMissingFiles(root, disk, files)
  {
    var idx := RapidStore.MissingIndices(root, disk, files);
    forall k | 0 <= k < |idx| ensures Pick(files, idx)[k] == RapidStore.FindMissingFiles(root, disk, files)[k] {
      PickAt(files, idx, k);
    }
  }

  /** A fresh blob: nothing of it has arrived yet. */
  predicate Fresh(root: Path, files: seq<SdpPackage>, st: Legacy) {
    Inv(root, files, st) && !st.done && st.lenBytes == []
  }

  /** `get_next_dl_file` finds the first of the missing positions. */
  lemma {:induction false} NextIsFirstMissing(root: Path, disk: Env.Disk, files: seq<SdpPackage>, from: nat)
    requires RapidStore.DigestsWellSized(files)
    ensures var mi := RapidStore.MissingIndicesFrom(root, disk, files, from);
      NextMissing(root, disk, files, from) == (if |mi| == 0 then None else Some(mi[0]))
    decreases |files| - from
  {
    if from < |files| && !RapidStore.Absent(root, disk, files[from]) {
      NextIsFirstMissing(root, disk, files, from + 1);
    }
  }

  /** The missing positions after the first one are the rest of them. */
  lemma {:induction false} MissingAfterFirst(root: Path, disk: Env.Disk, files: seq<SdpPackage>, from: nat)
    requires RapidStore.DigestsWellSized(files)
    requires |RapidStore.MissingIndicesFrom(root, disk, files, from)| > 0
    ensures var mi := RapidStore.MissingIndicesFrom(root, disk, files, from);
      RapidStore.MissingIndicesFrom(root, disk, files, mi[0] + 1) == mi[1..]
    decreases |files| - from
  {
    var tail := RapidStore.MissingIndicesFrom(root, disk, files, from + 1);
    if RapidStore.Absent(root, disk, files[from]) {
      assert RapidStore.MissingIndicesFrom(root, disk, files, from) == [from] + tail;
    } else {
      MissingAfterFirst(root, disk, files, from + 1);
    }
  }

  /** Writing a record's pool file changes the absence of no other record. */
  lemma WriteKeepsOther(root: Path, disk: Env.Disk, files: seq<SdpPackage>, i: nat, v: seq<byte>, j: nat)
    requires RapidStore.DigestsWellSized(files) && LaterMissingDistinct(root, disk, files) && i < j < |files|
    ensures RapidStore.Absent(root, disk[RapidStore.GetPoolPath(root, files[i]) := v], files[j])
        <==> RapidStore.Absent(root, disk, files[j])
  {
    RapidStore.PoolPathIdentifiesDigest(root, files[j], files[i]);
  }

  /** So the search for the next blob after it is unaffected. */
  lemma {:induction false} NextAfterWrite(root: Path, disk: Env.Disk, files: seq<SdpPackage>, i: nat, v: seq<byte>, from: nat)
    requires RapidStore.DigestsWellSized(files) && LaterMissingDistinct(root, disk, files) && i < from && i < |files|
    ensures NextMissing(root, disk[RapidStore.GetPoolPath(root, files[i]) := v], files, from)
         == NextMissing(root, disk, files, from)
    decreases |files| - from
  {
    if from < |files| {
      WriteKeepsOther(root, disk, files, i, v, from);
      NextAfterWrite(root, disk, files, i, v, from + 1);
    }
  }

  /** Nor are the positions missing after it. */
  lemma {:induction false} MissingAfterWrite(root: Path, disk: Env.Disk, files: seq<SdpPackage>, i: nat, v: seq<byte>, from: nat)
    requires RapidStore.DigestsWellSized(files) && LaterMissingDistinct(root, disk, files) && i < from && i < |files|
    ensures RapidStore.MissingIndicesFrom(root, disk[RapidStore.GetPoolPath(root, files[i]) := v], files, from)
         == RapidStore.MissingIndicesFrom(root, disk, files, from)
    decreases |files| - from
  {
    if from < |files| {
      WriteKeepsOther(root, disk, files, i, v, from);
      MissingAfterWrite(root, disk, files, i, v, from + 1);
    }
  }

  /** The state once a frame with payload `p` has filled record `i`'s
      file. */
  function Filled(root: Path, files: seq<SdpPackage>, disk: Env.Disk, i: nat, p: seq<byte>, leftover: nat): (st: Legacy)
    requires RapidStore.DigestsWellSized(files) && i < |files| && |p| < U32_LIMIT
    ensures Inv(root, files, st) && st.fileRead == st.size
  {
    BigEndianRoundTrip(|p|);
    Legacy(i, BigEndian(|p|), |p|, |p|, disk[RapidStore.GetPoolPath(root, files[i]) := p], false, leftover)
  }

  /** One frame with a non-empty payload, fed to a freshly selected blob,
      fills its file and advances. */
  lemma OneFrame(mode: Mode, root: Path, files: seq<SdpPackage>, disk: Env.Disk, i: nat, leftover: nat,
                 p: seq<byte>, rest: seq<byte>)
    requires RapidStore.DigestsWellSized(files) && i < |files| && 0 < |p| < U32_LIMIT
    ensures Fold(mode, root, files, Select(root, files, disk, i, leftover), BigEndian(|p|) + p + rest)
         == Then(mode, root, files, Advance(mode, root, files, Filled(root, files, disk, i, p, leftover)), rest)
  {
    assert BigEndian(|p|) + p + rest == BigEndian(|p|) + (p + rest);
    LengthPrefix(mode, root, files, disk, i, leftover, |p|, p + rest);
    PayloadOfFrame(mode, root, files, disk, i, leftover, p, rest);
  }

  /** The four length bytes of a frame, fed to a freshly selected blob. */
  lemma LengthPrefix(mode: Mode, root: Path, files: seq<SdpPackage>, disk: Env.Disk, i: nat, leftover: nat,
                     n: nat, rest: seq<byte>)
    requires RapidStore.DigestsWellSized(files) && i < |files| && n < U32_LIMIT
    ensures var st := Select(root, files, disk, i, leftover);
      && Inv(root, files, st.(lenBytes := BigEndian(n), size := n))
      && Fold(mode, root, files, st, BigEndian(n) + rest) == Fold(mode, root, files, st.(lenBytes := BigEndian(n), size := n), rest)
  {
    var st := Select(root, files, disk, i, leftover);
    BigEndianRoundTrip(n);
    FoldAppend(mode, root, files, st, BigEndian(n), rest);
    FoldLength(mode, root, files, st, BigEndian(n));
    assert st.lenBytes + BigEndian(n) == BigEndian(n);
  }

  /** The payload of a frame, once its length is known. */
  lemma PayloadOfFrame(mode: Mode, root: Path, files: seq<SdpPackage>, disk: Env.Disk, i: nat, leftover: nat,
                       p: seq<byte>, rest: seq<byte>)
    requires RapidStore.DigestsWellSized(files) && i < |files| && 0 < |p| < U32_LIMIT
    ensures var st1 := Select(root, files, disk, i, leftover).(lenBytes := BigEndian(|p|), size := |p|);
      && Inv(root, files, st1)
      && Fold(mode, root, files, st1, p + rest)
         == Then(mode, root, files, Advance(mode, root, files, Filled(root, files, disk, i, p, leftover)), rest)
  {
    BigEndianRoundTrip(|p|);
    var st1 := Select(root, files, disk, i, leftover).(lenBytes := BigEndian(|p|), size := |p|);
    var dest := Dest(root, files, st1);
    FoldAppend(mode, root, files, st1, p, rest);
    FoldPayload(mode, root, files, st1, p);
    assert st1.disk[dest] + p == p;
    assert st1.disk[dest := p] == disk[dest := p];
  }

  /** Completing a frame moves on to the first missing record after the
      current one: there is none exactly when no record after it is
      missing. */
  lemma AdvanceAfterFrame(mode: Mode, root: Path, files: seq<SdpPackage>, disk: Env.Disk, i: nat, p: seq<byte>, leftover: nat)
    requires RapidStore.DigestsWellSized(files) && LaterMissingDistinct(root, disk, files) && i < |files| && |p| < U32_LIMIT
    ensures var full := Filled(root, files, disk, i, p, leftover);
      var mi := RapidStore.MissingIndicesFrom(root, disk, files, i + 1);
      && (|mi| == 0 ==> Advance(mode, root, files, full)
                        == if mode == AsWritten then Err(Halt(UnwrapNone, full.disk))
                           else Ok(full.(lenBytes := [], size := 0, fileRead := 0, done := true)))
      && (|mi| > 0 ==> Advance(mode, root, files, full) == Ok(Select(root, files, full.disk, mi[0], leftover)))
  {
    NextAfterFrame(root, files, disk, i, p);
    assert Filled(root, files, disk, i, p, leftover).disk == disk[RapidStore.GetPoolPath(root, files[i]) := p];
  }

  /** The search after a filled blob finds the first record missing
      after it. */
  lemma NextAfterFrame(root: Path, files: seq<SdpPackage>, disk: Env.Disk, i: nat, p: seq<byte>)
    requires RapidStore.DigestsWellSized(files) && LaterMissingDistinct(root, disk, files) && i < |files|
    ensures var mi := RapidStore.MissingIndicesFrom(root, disk, files, i + 1);
      NextMissing(root, disk[RapidStore.GetPoolPath(root, files[i]) := p], files, i + 1)
      == if |mi| == 0 then None else Some(mi[0])
  {
    NextAfterWrite(root, disk, files, i, p, i + 1);
    NextIsFirstMissing(root, disk, files, i + 1);
  }

  /** The records missing after the next one are unaffected by the write. */
  lemma MissingAfterFrame(root: Path, files: seq<SdpPackage>, disk: Env.Disk, i: nat, p: seq<byte>)
    requires RapidStore.DigestsWellSized(files) && LaterMissingDistinct(root, disk, files) && i < |files|
    requires |RapidStore.MissingIndicesFrom(root, disk, files, i + 1)| > 0
    ensures var mi := RapidStore.MissingIndicesFrom(root, disk, files, i + 1);
      RapidStore.MissingIndicesFrom(root, disk[RapidStore.GetPoolPath(root, files[i]) := p], files, mi[0] + 1) == mi[1..]
  {
    var mi := RapidStore.MissingIndicesFrom(root, disk, files, i + 1);
    MissingAfterFirst(root, disk, files, i + 1);
    MissingAfterWrite(root, disk, files, i, p, mi[0] + 1);
  }

  /** The payloads of a streamer body land, in order, in the blob selected
      first and then in each missing blob after it. As written the machine
      then panics; corrected, it finishes with what followed counted as
      left over. */
  lemma {:induction false} FoldFrames(mode: Mode, root: Path, files: seq<SdpPackage>, disk: Env.Disk, i: nat, leftover: nat,
                                      ps: seq<seq<byte>>, extra: seq<byte>)
    requires RapidStore.DigestsWellSized(files) && LaterMissingDistinct(root, disk, files) && i < |files|
    requires PoolDownloader.Framable(ps) && forall k :: 0 <= k < |ps| ==> |ps[k]| > 0
    requires |ps| == 1 + |RapidStore.MissingIndicesFrom(root, disk, files, i + 1)|
    ensures var r := Fold(mode, root, files, Select(root, files, disk, i, leftover), PoolDownloader.EncodeFrames(ps) + extra);
      var order := [i] + RapidStore.MissingIndicesFrom(root, disk, files, i + 1);
      var written := PoolDownloader.WriteAll(disk, root, Pick(files, order), ps);
      && (mode == AsWritten ==> r == Err(Halt(UnwrapNone, written)))
      && (mode == Corrected ==> r.Ok? && r.value.done && r.value.leftover == leftover + |extra| && r.value.disk == written)
    decreases |ps|
  {
    var p := ps[0];
    var mi := RapidStore.MissingIndicesFrom(root, disk, files, i + 1);
    var d2 := disk[RapidStore.GetPoolPath(root, files[i]) := p];
    if |ps| == 1 {
      LastFrame(mode, root, files, disk, i, leftover, ps, extra);
    } else {
      var j := mi[0];
      MissingAfterFrame(root, files, disk, i, p);
      LaterMissingDistinctAfterWrite(root, disk, files, RapidStore.GetPoolPath(root, files[i]), p);
      TailFrames(ps);
      FoldFrames(mode, root, files, d2, j, leftover, ps[1..], extra);
      HeadTail(mi);
      FramesStep(mode, root, files, disk, i, leftover, ps, extra);
    }
  }

  /** The last frame: nothing is missing after the current blob. */
  lemma LastFrame(mode: Mode, root: Path, files: seq<SdpPackage>, disk: Env.Disk, i: nat, leftover: nat,
                  ps: seq<seq<byte>>, extra: seq<byte>)
    requires RapidStore.DigestsWellSized(files) && LaterMissingDistinct(root, disk, files) && i < |files|
    requires PoolDownloader.Framable(ps) && |ps| == 1 && |ps[0]| > 0
    requires |RapidStore.MissingIndicesFrom(root, disk, files, i + 1)| == 0
    ensures var r := Fold(mode, root, files, Select(root, files, disk, i, leftover), PoolDownloader.EncodeFrames(ps) + extra);
      var written := PoolDownloader.WriteAll(disk, root, Pick(files, [i]), ps);
      && (mode == AsWritten ==> r == Err(Halt(UnwrapNone, written)))
      && (mode == Corrected ==> r.Ok? && r.value.done && r.value.leftover == leftover + |extra| && r.value.disk == written)
  {
    var p := ps[0];
    FirstFrame(mode, root, files, disk, i, leftover, ps, extra);
    AdvanceAfterFrame(mode, root, files, disk, i, p, leftover);
    var full := Filled(root, files, disk, i, p, leftover);
    WriteAllFirst(disk, root, files, i, [], ps);
    assert PoolDownloader.EncodeFrames(ps[1..]) + extra == extra;
    if mode == Corrected {
      FoldDone(mode, root, files, full.(lenBytes := [], size := 0, fileRead := 0, done := true), extra);
    }
  }

  /** A frame followed by more: what the rest of the body does from the
      next missing blob is what the whole body does. */
  lemma FramesStep(mode: Mode, root: Path, files: seq<SdpPackage>, disk: Env.Disk, i: nat, leftover: nat,
                   ps: seq<seq<byte>>, extra: seq<byte>)
    requires RapidStore.DigestsWellSized(files) && LaterMissingDistinct(root, disk, files) && i < |files|
    requires PoolDownloader.Framable(ps) && |ps| > 1 && |ps[0]| > 0
    requires |ps| == 1 + |RapidStore.MissingIndicesFrom(root, disk, files, i + 1)|
    requires var mi := RapidStore.MissingIndicesFrom(root, disk, files, i + 1);
      var d2 := disk[RapidStore.GetPoolPath(root, files[i]) := ps[0]];
      var r := Fold(mode, root, files, Select(root, files, d2, mi[0], leftover), PoolDownloader.EncodeFrames(ps[1..]) + extra);
      var written := PoolDownloader.WriteAll(d2, root, Pick(files, mi), ps[1..]);
      && (mode == AsWritten ==> r == Err(Halt(UnwrapNone, written)))
      && (mode == Corrected ==> r.Ok? && r.value.done && r.value.leftover == leftover + |extra| && r.value.disk == written)
    ensures var r := Fold(mode, root, files, Select(root, files, disk, i, leftover), PoolDownloader.EncodeFrames(ps) + extra);
      var order := [i] + RapidStore.MissingIndicesFrom(root, disk, files, i + 1);
      var written := PoolDownloader.WriteAll(disk, root, Pick(files, order), ps);
      && (mode == AsWritten ==> r == Err(Halt(UnwrapNone, written)))
      && (mode == Corrected ==> r.Ok? && r.value.done && r.value.leftover == leftover + |extra| && r.value.disk == written)
  {
    var p := ps[0];
    var mi := RapidStore.MissingIndicesFrom(root, disk, files, i + 1);
    FirstFrame(mode, root, files, disk, i, leftover, ps, extra);
    AdvanceAfterFrame(mode, root, files, disk, i, p, leftover);
    WriteAllFirst(disk, root, files, i, mi, ps);
  }

  /** The first frame of a body, fed to a freshly selected blob. */
  lemma FirstFrame(mode: Mode, root: Path, files: seq<SdpPackage>, disk: Env.Disk, i: nat, leftover: nat,
                   ps: seq<seq<byte>>, extra: seq<byte>)
    requires RapidStore.DigestsWellSized(files) && i < |files|
    requires PoolDownloader.Framable(ps) && |ps| > 0 && |ps[0]| > 0
    ensures Fold(mode, root, files, Select(root, files, disk, i, leftover), PoolDownloader.EncodeFrames(ps) + extra)
         == Then(mode, root, files, Advance(mode, root, files, Filled(root, files, disk, i, ps[0], leftover)),
                 PoolDownloader.EncodeFrames(ps[1..]) + extra)
  {
    var p := ps[0];
    var rest := PoolDownloader.EncodeFrames(ps[1..]) + extra;
    assert PoolDownloader.EncodeFrames(ps) + extra == BigEndian(|p|) + p + rest;
    OneFrame(mode, root, files, disk, i, leftover, p, rest);
  }

  /** Writing the payloads in order starts with the first. */
  lemma WriteAllFirst(disk: Env.Disk, root: Path, files: seq<SdpPackage>, i: nat, mi: seq<nat>, ps: seq<seq<byte>>)
    requires RapidStore.DigestsWellSized(files) && i < |files| && forall k :: 0 <= k < |mi| ==> mi[k] < |files|
    requires 0 < |ps| <= 1 + |mi|
    ensures PoolDownloader.WriteAll(disk, root, Pick(files, [i] + mi), ps)
         == PoolDownloader.WriteAll(disk[RapidStore.GetPoolPath(root, files[i]) := ps[0]], root, Pick(files, mi), ps[1..])
  {
    assert ([i] + mi)[1..] == mi;
  }

  lemma TailFrames(ps: seq<seq<byte>>)
    requires |ps| > 0 && PoolDownloader.Framable(ps) && forall k :: 0 <= k < |ps| ==> |ps[k]| > 0
    ensures PoolDownloader.Framable(ps[1..]) && forall k :: 0 <= k < |ps[1..]| ==> |ps[1..][k]| > 0
  {
    assert forall k :: 0 <= k < |ps[1..]| ==> ps[1..][k] == ps[k + 1];
  }

  lemma HeadTail(xs: seq<nat>)
    requires |xs| > 0
    ensures [xs[0]] + xs[1..] == xs
  {
  }

  // ---------------------------------------------------------------------
  // The whole download
  // ---------------------------------------------------------------------

  /** A server that sends, for each missing record in order, its length
      and its (non-empty) contents, possibly followed by more bytes: the
      code as written panics once the last missing blob is complete. */
  lemma LegacyPanicsAfterLastBlob(root: Path, disk: Env.Disk, files: seq<SdpPackage>, ps: seq<seq<byte>>,
                                  extra: seq<byte>, chunks: seq<PoolDownloader.Chunk>)
    requires RapidStore.DigestsWellSized(files) && DistinctDigests(RapidStore.FindMissingFiles(root, disk, files))
    requires PoolDownloader.Framable(ps) && forall k :: 0 <= k < |ps| ==> |ps[k]| > 0
    requires |ps| == |RapidStore.FindMissingFiles(root, disk, files)| > 0
    requires PoolDownloader.AllData(chunks) && PoolDownloader.Flatten(chunks) == PoolDownloader.EncodeFrames(ps) + extra
    ensures DownloadSdpFilesAsWritten(root, disk, files, chunks)
         == Err(Halt(UnwrapNone, PoolDownloader.WriteAll(disk, root, RapidStore.FindMissingFiles(root, disk, files), ps)))
  {
    var i := StartOfStream(AsWritten, root, disk, files, ps, extra, chunks);
    MissingDistinctIsLaterMissingDistinct(root, disk, files);
    FoldFrames(AsWritten, root, files, disk, i, 0, ps, extra);
  }

  /** For the same server the corrected download succeeds, every missing
      record's pool file holds its payload, and the bytes after the frames
      are left over. */
  lemma LegacyStoresServerStream(root: Path, disk: Env.Disk, files: seq<SdpPackage>, ps: seq<seq<byte>>,
                                 extra: seq<byte>, chunks: seq<PoolDownloader.Chunk>)
    requires RapidStore.DigestsWellSized(files) && DistinctDigests(RapidStore.FindMissingFiles(root, disk, files))
    requires PoolDownloader.Framable(ps) && forall k :: 0 <= k < |ps| ==> |ps[k]| > 0
    requires |ps| == |RapidStore.FindMissingFiles(root, disk, files)| > 0
    requires PoolDownloader.AllData(chunks) && PoolDownloader.Flatten(chunks) == PoolDownloader.EncodeFrames(ps) + extra
    ensures var r := DownloadSdpFiles(root, disk, files, chunks);
      && r.Ok? && r.value.done && r.value.leftover == |extra|
      && r.value.disk == PoolDownloader.WriteAll(disk, root, RapidStore.FindMissingFiles(root, disk, files), ps)
  {
    var i := StartOfStream(Corrected, root, disk, files, ps, extra, chunks);
    MissingDistinctIsLaterMissingDistinct(root, disk, files);
    FoldFrames(Corrected, root, files, disk, i, 0, ps, extra);
  }

  /** Three missing records, the first two sharing a digest, and a server
      that sends one frame for each. Once the first frame is in, the
      shared pool file exists, so the search for the next blob skips the
      second record: its frame lands in the third record's file, and the
      third frame is left over (corrected) or never read, since the code
      as written panics after the third record's file is complete. */
  lemma DuplicateDigestShiftsFrames(root: Path, disk: Env.Disk, a: SdpPackage, b: SdpPackage, c: SdpPackage,
                                    p: seq<byte>, q: seq<byte>, s: seq<byte>, extra: seq<byte>,
                                    chunks: seq<PoolDownloader.Chunk>)
    requires |a.md5Bin| == |b.md5Bin| == |c.md5Bin| == Parsing.MD5_LEN
    requires a.md5Bin == b.md5Bin && b.md5Bin != c.md5Bin
    requires RapidStore.Absent(root, disk, a) && RapidStore.Absent(root, disk, b) && RapidStore.Absent(root, disk, c)
    requires PoolDownloader.Framable([p, q, s]) && |p| > 0 && |q| > 0
    requires PoolDownloader.AllData(chunks) && PoolDownloader.Flatten(chunks) == PoolDownloader.EncodeFrames([p, q, s]) + extra
    ensures DownloadSdpFilesAsWritten(root, disk, [a, b, c], chunks)
         == Err(Halt(UnwrapNone, disk[RapidStore.GetPoolPath(root, a) := p][RapidStore.GetPoolPath(root, c) := q]))
    ensures var r := DownloadSdpFiles(root, disk, [a, b, c], chunks);
      && r.Ok? && r.value.done && r.value.leftover == LENGTH_SIZE + |s| + |extra|
      && r.value.disk == disk[RapidStore.GetPoolPath(root, a) := p][RapidStore.GetPoolPath(root, c) := q]
  {
    var files := [a, b, c];
    var d2 := disk[RapidStore.GetPoolPath(root, a) := p];
    assert [p, q, s][0] == p && [p, q, s][1] == q && [p, q, s][2] == s;
    var rest2 := BigEndian(|s|) + s + extra;
    ThreeFrames(p, q, s, extra);
    DuplicateDigestRun(AsWritten, root, disk, a, b, c, p, q, rest2, chunks);
    DuplicateDigestRun(Corrected, root, disk, a, b, c, p, q, rest2, chunks);
    var full := Filled(root, files, d2, 2, q, 0);
    assert NextMissing(root, full.disk, files, 3) == None;
    FoldDone(Corrected, root, files, full.(lenBytes := [], size := 0, fileRead := 0, done := true), rest2);
  }

  /** The run of `DuplicateDigestShiftsFrames` up to the completion of the
      second frame, which fills the third record's file. */
  lemma DuplicateDigestRun(mode: Mode, root: Path, disk: Env.Disk, a: SdpPackage, b: SdpPackage, c: SdpPackage,
                           p: seq<byte>, q: seq<byte>, rest: seq<byte>, chunks: seq<PoolDownloader.Chunk>)
    requires |a.md5Bin| == |b.md5Bin| == |c.md5Bin| == Parsing.MD5_LEN
    requires a.md5Bin == b.md5Bin && b.md5Bin != c.md5Bin
    requires RapidStore.Absent(root, disk, a) && RapidStore.Absent(root, disk, c)
    requires 0 < |p| < U32_LIMIT && 0 < |q| < U32_LIMIT
    requires PoolDownloader.AllData(chunks)
    requires PoolDownloader.Flatten(chunks) == BigEndian(|p|) + p + (BigEndian(|q|) + q + rest)
    ensures var d2 := disk[RapidStore.GetPoolPath(root, a) := p];
      DownloadWith(mode, root, disk, [a, b, c], chunks)
      == Then(mode, root, [a, b, c], Advance(mode, root, [a, b, c], Filled(root, [a, b, c], d2, 2, q, 0)), rest)
  {
    var files := [a, b, c];
    var d2 := disk[RapidStore.GetPoolPath(root, a) := p];
    var rest1 := BigEndian(|q|) + q + rest;
    assert NextMissing(root, disk, files, 0) == Some(0);
    FeedAllIsFold(mode, root, files, Select(root, files, disk, 0, 0), chunks);
    OneFrame(mode, root, files, disk, 0, 0, p, rest1);
    assert Filled(root, files, disk, 0, p, 0).disk == d2;
    SkipsSharedDigest(root, disk, a, b, c, p);
    OneFrame(mode, root, files, d2, 2, 0, q, rest);
  }

  /** The body of three frames, taken apart frame by frame. */
  lemma ThreeFrames(p: seq<byte>, q: seq<byte>, s: seq<byte>, extra: seq<byte>)
    requires |p| < U32_LIMIT && |q| < U32_LIMIT && |s| < U32_LIMIT && PoolDownloader.Framable([p, q, s])
    ensures PoolDownloader.EncodeFrames([p, q, s]) + extra
         == BigEndian(|p|) + p + (BigEndian(|q|) + q + (BigEndian(|s|) + s + extra))
  {
    assert [p, q, s][0] == p && [p, q, s][1] == q && [p, q, s][2] == s;
    assert [p, q, s][1..] == [q, s] && [q, s][1..] == [s] && [s][1..] == [];
    assert PoolDownloader.Framable([q, s]) && PoolDownloader.Framable([s]);
    var e2 := PoolDownloader.EncodeFrames([q, s]);
    var e1 := PoolDownloader.EncodeFrames([s]);
    assert PoolDownloader.EncodeFrames([p, q, s]) == BigEndian(|p|) + p + e2;
    assert e2 == BigEndian(|q|) + q + e1;
    assert PoolDownloader.EncodeFrames([]) == [];
    assert e1 == BigEndian(|s|) + s + [];
  }

  /** After the first record's file is written, the second record (same
      digest) looks present and the third is the next one missing. */
  lemma SkipsSharedDigest(root: Path, disk: Env.Disk, a: SdpPackage, b: SdpPackage, c: SdpPackage, p: seq<byte>)
    requires |a.md5Bin| == |b.md5Bin| == |c.md5Bin| == Parsing.MD5_LEN
    requires a.md5Bin == b.md5Bin && b.md5Bin != c.md5Bin && RapidStore.Absent(root, disk, c)
    ensures NextMissing(root, disk[RapidStore.GetPoolPath(root, a) := p], [a, b, c], 1) == Some(2)
  {
    var files := [a, b, c];
    RapidStore.PoolPathIdentifiesDigest(root, files[0], files[1]);
    RapidStore.PoolPathIdentifiesDigest(root, files[0], files[2]);
  }

  /** The download starts at the first missing record and runs the
      byte-at-a-time machine over the body; the records missing after the
      first are the rest of them. */
  lemma StartOfStream(mode: Mode, root: Path, disk: Env.Disk, files: seq<SdpPackage>, ps: seq<seq<byte>>,
                      extra: seq<byte>, chunks: seq<PoolDownloader.Chunk>) returns (i: nat)
    requires RapidStore.DigestsWellSized(files)
    requires PoolDownloader.Framable(ps)
    requires |ps| == |RapidStore.FindMissingFiles(root, disk, files)| > 0
    requires PoolDownloader.AllData(chunks) && PoolDownloader.Flatten(chunks) == PoolDownloader.EncodeFrames(ps) + extra
    ensures i < |files|
    ensures DownloadWith(mode, root, disk, files, chunks)
         == Fold(mode, root, files, Select(root, files, disk, i, 0), PoolDownloader.EncodeFrames(ps) + extra)
    ensures |ps| == 1 + |RapidStore.MissingIndicesFrom(root, disk, files, i + 1)|
    ensures Pick(files, [i] + RapidStore.MissingIndicesFrom(root, disk, files, i + 1))
         == RapidStore.FindMissingFiles(root, disk, files)
  {
    i := FirstMissing(root, disk, files);
    FeedAllIsFold(mode, root, files, Select(root, files, disk, i, 0), chunks);
  }

  /** The first missing position, and the missing positions after it. */
  lemma FirstMissing(root: Path, disk: Env.Disk, files: seq<SdpPackage>) returns (i: nat)
    requires RapidStore.DigestsWellSized(files)
    requires |RapidStore.FindMissingFiles(root, disk, files)| > 0
    ensures i < |files| && NextMissing(root, disk, files, 0) == Some(i)
    ensures |RapidStore.FindMissingFiles(root, disk, files)| == 1 + |RapidStore.MissingIndicesFrom(root, disk, files, i + 1)|
    ensures Pick(files, [i] + RapidStore.MissingIndicesFrom(root, disk, files, i + 1))
         == RapidStore.FindMissingFiles(root, disk, files)
  {
    var mi := RapidStore.MissingIndices(root, disk, files);
    i := mi[0];
    NextIsFirstMissing(root, disk, files, 0);
    MissingAfterFirst(root, disk, files, 0);
    HeadTail(mi);
    PickMissing(root, disk, files);
  }

  /** With nothing missing the first lookup already panics, in either
      mode; corrected, that is the only panic. */
  lemma NothingMissingPanics(mode: Mode, root: Path, disk: Env.Disk, files: seq<SdpPackage>, chunks: seq<PoolDownloader.Chunk>)
    requires RapidStore.DigestsWellSized(files)
    ensures |RapidStore.FindMissingFiles(root, disk, files)| == 0
        ==> DownloadWith(mode, root, disk, files, chunks) == Err(Halt(UnwrapNone, disk))
    ensures var r := DownloadSdpFiles(root, disk, files, chunks);
      r.Err? && r.error.failure.Panic? <==> |RapidStore.FindMissingFiles(root, disk, files)| == 0
  {
    NextIsFirstMissing(root, disk, files, 0);
  }
}
