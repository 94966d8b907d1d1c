/** Downloading the missing blobs of a package through the streamer: the
    response body is a sequence of frames, one per missing blob in
    descriptor order, each a big-endian 4-byte length followed by that
    many bytes of (still gzipped) blob. The body arrives in chunks of
    arbitrary size, so frames are reassembled by a buffering reader.
    Source: src/pool_downloader.rs. */
module PoolDownloader {
  import opened Wrappers
  import opened Bytes
  import opened Types
  import Env
  import RapidStore
  import Validation

  // ---------------------------------------------------------------------
  // The response body and the buffering reader
  // ---------------------------------------------------------------------

  /** One item of the response body stream: a chunk of bytes, or a
      transport error. */
  datatype Chunk = Data(bytes: seq<byte>) | Broken

  /** `BufferedReader`: the chunks not yet pulled from the response and the
      bytes pulled but not yet handed out. The source's `current` counter
      always equals the buffer's length, so it is not kept separately. */
  datatype Reader = Reader(rest: seq<Chunk>, buf: seq<byte>)

  /** The bytes a stream of chunks carries; a transport error carries none. */
  function Flatten(cs: seq<Chunk>): seq<byte> {
    if |cs| == 0 then []
    else (if cs[0].Data? then cs[0].bytes else []) + Flatten(cs[1..])
  }

  /** A stream without transport errors. */
  predicate AllData(cs: seq<Chunk>) {
    forall i :: 0 <= i < |cs| ==> cs[i].Data?
  }

  /** Every byte the reader can still hand out. */
  function Unread(r: Reader): seq<byte> {
    r.buf + Flatten(r.rest)
  }

  function Sum(xs: seq<nat>): nat {
    if |xs| == 0 then 0 else xs[0] + Sum(xs[1..])
  }

  /** What one read did: the sizes of the chunks it pulled (each reported
      to the progress callback), the reader afterwards, and its result. */
  datatype Read = Read(pulled: seq<nat>, reader: Reader, result: Result<seq<byte>, Failure>)

  /** `read_amount`: pull chunks until at least `n` bytes are buffered,
      then hand out the first `n`. The stream ending first is `NoMoreData`;
      a transport error is `NetworkError`. */
  function ReadAmount(r: Reader, n: nat): (rd: Read)
    decreases |r.rest|
    ensures |rd.pulled| <= |r.rest| && rd.reader.rest == r.rest[|rd.pulled|..]
    ensures Sum(rd.pulled) + |Flatten(rd.reader.rest)| == |Flatten(r.rest)|
    ensures rd.result.Ok? ==> |rd.result.value| == n && rd.result.value + Unread(rd.reader) == Unread(r)
    ensures rd.result.Err? ==> rd.result.error == NoMoreData || rd.result.error == NetworkError
    ensures rd.result.Err? && rd.result.error == NetworkError ==> !AllData(r.rest)
    ensures AllData(r.rest) ==> (rd.result.Ok? <==> n <= |Unread(r)|)
  {
    if n <= |r.buf| then
      Read([], Reader(r.rest, r.buf[n..]), Ok(r.buf[..n]))
    else if |r.rest| == 0 then
      Read([], r, Err(NoMoreData))
    else match r.rest[0]
      case Broken =>
        Read([], r, Err(NetworkError))
      case Data(c) =>
        var next := Reader(r.rest[1..], r.buf + c);
        PullChunk(r);
        var rd := ReadAmount(next, n);
        assert r.rest[1..][|rd.pulled|..] == r.rest[|rd.pulled| + 1..];
        Read([|c|] + rd.pulled, rd.reader, rd.result)
  }

  /** Moving the first chunk of the stream into the buffer hands out the
      same bytes, and leaves a stream free of transport errors exactly
      when the whole one was. */
  lemma PullChunk(r: Reader)
    requires |r.rest| > 0 && r.rest[0].Data?
    ensures var next := Reader(r.rest[1..], r.buf + r.rest[0].bytes);
      && Unread(next) == Unread(r)
      && |Flatten(r.rest)| == |r.rest[0].bytes| + |Flatten(r.rest[1..])|
      && (AllData(r.rest) <==> AllData(r.rest[1..]))
  {
    assert Flatten(r.rest) == r.rest[0].bytes + Flatten(r.rest[1..]);
    forall i | 0 <= i < |r.rest[1..]| ensures r.rest[1..][i] == r.rest[i + 1] { }
    if AllData(r.rest[1..]) {
      forall i | 0 <= i < |r.rest| ensures r.rest[i].Data? {
        if i > 0 { assert r.rest[i] == r.rest[1..][i - 1]; }
      }
    }
  }

  /** `read_remainder`: everything the stream still holds, or
      `NetworkError` if a transport error comes before its end. */
  function ReadRemainder(r: Reader): (res: Result<seq<byte>, Failure>)
    decreases |r.rest|
    ensures AllData(r.rest) ==> res == Ok(Unread(r))
    ensures !AllData(r.rest) ==> res == Err(NetworkError)
  {
    if |r.rest| == 0 then
      assert Unread(r) == r.buf;
      Ok(r.buf)
    else match r.rest[0]
      case Broken => Err(NetworkError)
      case Data(c) =>
        var next := Reader(r.rest[1..], r.buf + c);
        PullChunk(r);
        ReadRemainder(next)
  }

  // ---------------------------------------------------------------------
  // The frame format, as a reference over the whole body
  // ---------------------------------------------------------------------

  /** The length prefix of every frame. */
  const LENGTH_SIZE: nat := 4

  /** The result of splitting a body into `count` frames: the payloads
      found, what follows them, and whether all `count` were complete. */
  datatype Frames = Frames(payloads: seq<seq<byte>>, rest: seq<byte>, complete: bool)

  /** The first frame of `body`, if it is complete: its payload and the
      bytes after it. */
  function DecodeFrame(body: seq<byte>): Option<(seq<byte>, seq<byte>)> {
    if |body| < LENGTH_SIZE then None
    else
      var len := FromBigEndian(body[..LENGTH_SIZE]);
      if |body| - LENGTH_SIZE < len then None
      else Some((body[LENGTH_SIZE..LENGTH_SIZE + len], body[LENGTH_SIZE + len..]))
  }

  /** The frames at the start of `body`. */
  function DecodeFrames(body: seq<byte>, count: nat): (f: Frames)
    ensures |f.payloads| <= count
    ensures f.complete ==> |f.payloads| == count
  {
    if count == 0 then Frames([], body, true)
    else match DecodeFrame(body)
      case None => Frames([], body, false)
      case Some((payload, rest)) =>
        var g := DecodeFrames(rest, count - 1);
        Frames([payload] + g.payloads, g.rest, g.complete)
  }

  /** Payloads the 32-bit length prefix can describe. */
  predicate Framable(payloads: seq<seq<byte>>) {
    forall k :: 0 <= k < |payloads| ==> |payloads[k]| < U32_LIMIT
  }

  /** The body a server sends for `payloads`. */
  function EncodeFrames(payloads: seq<seq<byte>>): (body: seq<byte>)
    requires Framable(payloads)
    ensures |body| >= LENGTH_SIZE * |payloads|
  {
    if |payloads| == 0 then []
    else BigEndian(|payloads[0]|) + payloads[0] + EncodeFrames(payloads[1..])
  }

  /** Decoding a server's body recovers its payloads and whatever follows. */
  lemma {:induction false} FramesRoundTrip(payloads: seq<seq<byte>>, extra: seq<byte>)
    requires Framable(payloads)
    ensures DecodeFrames(EncodeFrames(payloads) + extra, |payloads|) == Frames(payloads, extra, true)
  {
    if |payloads| > 0 {
      var p := payloads[0];
      var tail := EncodeFrames(payloads[1..]) + extra;
      assert EncodeFrames(payloads) + extra == BigEndian(|p|) + (p + tail);
      DecodeEncodedFrame(p, tail);
      FramesRoundTrip(payloads[1..], extra);
      assert [p] + payloads[1..] == payloads;
    }
  }

  /** A length prefix followed by that many bytes decodes as one frame. */
  lemma DecodeEncodedFrame(p: seq<byte>, tail: seq<byte>)
    requires |p| < U32_LIMIT
    ensures DecodeFrame(BigEndian(|p|) + (p + tail)) == Some((p, tail))
  {
    var body := BigEndian(|p|) + (p + tail);
    BigEndianRoundTrip(|p|);
    assert body[..LENGTH_SIZE] == BigEndian(|p|);
    assert body[LENGTH_SIZE..LENGTH_SIZE + |p|] == p;
    assert body[LENGTH_SIZE + |p|..] == tail;
  }

  /** The files written when the `k`-th missing blob receives the `k`-th
      payload, in order. */
  function WriteAll(disk: Env.Disk, root: Path, missing: seq<SdpPackage>, payloads: seq<seq<byte>>): Env.Disk
    requires RapidStore.DigestsWellSized(missing) && |payloads| <= |missing|
    decreases |payloads|
  {
    if |payloads| == 0 then disk
    else WriteAll(disk[RapidStore.GetPoolPath(root, missing[0]) := payloads[0]], root, missing[1..], payloads[1..])
  }

  /** Writing creates files at the blobs' pool paths and nowhere else. */
  lemma {:induction false} WriteAllKeys(disk: Env.Disk, root: Path, missing: seq<SdpPackage>, payloads: seq<seq<byte>>)
    requires RapidStore.DigestsWellSized(missing) && |payloads| <= |missing|
    ensures WriteAll(disk, root, missing, payloads).Keys
         == disk.Keys + set k | 0 <= k < |payloads| :: RapidStore.GetPoolPath(root, missing[k])
    decreases |payloads|
  {
    if |payloads| > 0 {
      var head := RapidStore.GetPoolPath(root, missing[0]);
      WriteAllKeys(disk[head := payloads[0]], root, missing[1..], payloads[1..]);
      PoolPathsSplit(root, missing, |payloads|);
    }
  }

  /** The pool paths of the first `n` records are the first record's path
      plus those of the next `n - 1`. */
  lemma PoolPathsSplit(root: Path, missing: seq<SdpPackage>, n: nat)
    requires RapidStore.DigestsWellSized(missing) && 0 < n <= |missing|
    ensures (set k | 0 <= k < n :: RapidStore.GetPoolPath(root, missing[k]))
         == {RapidStore.GetPoolPath(root, missing[0])} + (set k | 0 <= k < n - 1 :: RapidStore.GetPoolPath(root, missing[1..][k]))
  {
    var rest := missing[1..];
    forall k | 0 < k < n
      ensures RapidStore.GetPoolPath(root, missing[k]) in (set k | 0 <= k < n - 1 :: RapidStore.GetPoolPath(root, rest[k]))
    {
      assert missing[k] == rest[k - 1];
    }
  }

  /** When the blobs live at different pool paths, each receives exactly
      its own payload. */
  lemma {:induction false} WriteAllContents(disk: Env.Disk, root: Path, missing: seq<SdpPackage>, payloads: seq<seq<byte>>, k: nat)
    requires RapidStore.DigestsWellSized(missing) && |payloads| <= |missing| && k < |payloads|
    requires forall i, j :: 0 <= i < j < |missing| ==> missing[i].md5Bin != missing[j].md5Bin
    ensures RapidStore.GetPoolPath(root, missing[k]) in WriteAll(disk, root, missing, payloads)
    ensures WriteAll(disk, root, missing, payloads)[RapidStore.GetPoolPath(root, missing[k])] == payloads[k]
    decreases |payloads|
  {
    var first := RapidStore.GetPoolPath(root, missing[0]);
    var disk' := disk[first := payloads[0]];
    if k == 0 {
      forall i | 0 <= i < |missing[1..]| ensures RapidStore.GetPoolPath(root, missing[1..][i]) != first {
        RapidStore.PoolPathIdentifiesDigest(root, missing[1..][i], missing[0]);
        assert missing[1..][i] == missing[i + 1];
      }
      WriteAllKeeps(disk', root, missing[1..], payloads[1..], first);
    } else {
      assert missing[1..][k - 1] == missing[k];
      WriteAllContents(disk', root, missing[1..], payloads[1..], k - 1);
    }
  }

  /** A path none of the written blobs live at keeps its contents. */
  lemma {:induction false} WriteAllKeeps(disk: Env.Disk, root: Path, missing: seq<SdpPackage>, payloads: seq<seq<byte>>, path: Path)
    requires RapidStore.DigestsWellSized(missing) && |payloads| <= |missing|
    requires forall i :: 0 <= i < |missing| ==> RapidStore.GetPoolPath(root, missing[i]) != path
    requires path in disk
    ensures path in WriteAll(disk, root, missing, payloads)
    ensures WriteAll(disk, root, missing, payloads)[path] == disk[path]
    decreases |payloads|
  {
    if |payloads| > 0 {
      WriteAllKeeps(disk[RapidStore.GetPoolPath(root, missing[0]) := payloads[0]], root, missing[1..], payloads[1..], path);
    }
  }

  // ---------------------------------------------------------------------
  // The download loop
  // ---------------------------------------------------------------------

  /** The running state of a download: the reader, the files on disk, the
      events reported so far, and the byte count the progress callback has
      accumulated. */
  datatype Progress = Progress(reader: Reader, disk: Env.Disk, events: seq<Event>, downloaded: nat)

  /** The progress callback's events for the chunks a read pulled: each
      chunk adds its size to the running total, which is reported. */
  function ProgressEvents(downloaded: nat, pulled: seq<nat>): (es: seq<Event>)
    ensures |es| == |pulled|
    ensures |pulled| > 0 ==> es[|es| - 1] == DownloadProgress(downloaded + Sum(pulled))
    decreases |pulled|
  {
    if |pulled| == 0 then []
    else [DownloadProgress(downloaded + pulled[0])] + ProgressEvents(downloaded + pulled[0], pulled[1..])
  }

  /** The state after a read, whatever its result. */
  function After(st: Progress, rd: Read): Progress {
    Progress(rd.reader, st.disk, st.events + ProgressEvents(st.downloaded, rd.pulled), st.downloaded + Sum(rd.pulled))
  }

  /** The running total plus what the stream still carries: unchanged by
      reading, since every pulled chunk is counted. */
  function Accounted(st: Progress): nat {
    st.downloaded + |Flatten(st.reader.rest)|
  }

  /** One frame of the loop: a length, then that many bytes. */
  function ReadFrame(st: Progress): (out: (Progress, Result<seq<byte>, Failure>))
    ensures out.0.disk == st.disk && st.events <= out.0.events
    ensures Accounted(out.0) == Accounted(st)
    ensures out.1.Err? ==> out.1.error == NoMoreData || out.1.error == NetworkError
    ensures out.1.Err? && out.1.error == NetworkError ==> !AllData(st.reader.rest)
  {
    var rd := ReadAmount(st.reader, LENGTH_SIZE);
    var st1 := After(st, rd);
    if rd.result.Err? then (st1, Err(rd.result.error))
    else
      var size := FromBigEndian(rd.result.value);
      SuffixKeepsAllData(st.reader.rest, |rd.pulled|);
      var rd2 := ReadAmount(st1.reader, size);
      var st2 := After(st1, rd2);
      if rd2.result.Err? then (st2, Err(rd2.result.error))
      else (st2, Ok(rd2.result.value))
  }

  /** A suffix of a stream without transport errors has none either. */
  lemma SuffixKeepsAllData(cs: seq<Chunk>, m: nat)
    requires m <= |cs|
    ensures AllData(cs) ==> AllData(cs[m..])
  {
    if AllData(cs) { SuffixAllData(cs, m); }
  }

  /** On a stream without transport errors, reading a frame is taking the
      first frame off the unread bytes. */
  lemma ReadFrameDecodes(st: Progress)
    requires AllData(st.reader.rest)
    ensures var out := ReadFrame(st);
      var f := DecodeFrame(Unread(st.reader));
      && AllData(out.0.reader.rest)
      && (out.1.Ok? <==> f.Some?)
      && (out.1.Ok? ==> f.value == (out.1.value, Unread(out.0.reader)))
  {
    var rd := ReadAmount(st.reader, LENGTH_SIZE);
    SuffixAllData(st.reader.rest, |rd.pulled|);
    if rd.result.Err? {
      assert |Unread(st.reader)| < LENGTH_SIZE;
    } else {
      var rd2 := ReadAmount(rd.reader, FromBigEndian(rd.result.value));
      SuffixAllData(rd.reader.rest, |rd2.pulled|);
      FrameOfReads(Unread(st.reader), rd.result.value, Unread(rd.reader), rd2.result.Ok?,
                   if rd2.result.Ok? then rd2.result.value else [], Unread(rd2.reader));
    }
  }

  /** How the two reads of a frame relate to the frame format: the first
      takes the length prefix off the unread bytes, the second succeeds
      exactly when that many bytes follow, and takes them. */
  lemma FrameOfReads(u: seq<byte>, head: seq<byte>, after: seq<byte>, ok: bool, data: seq<byte>, rest: seq<byte>)
    requires |head| == LENGTH_SIZE && head + after == u
    requires ok <==> FromBigEndian(head) <= |after|
    requires ok ==> |data| == FromBigEndian(head) && data + rest == after
    ensures var f := DecodeFrame(u);
      && (ok <==> f.Some?)
      && (ok ==> f.value == (data, rest))
  {
    FrameFromParts(u, head, after);
    if ok {
      SplitAt(data, rest, after);
    }
  }

  lemma SuffixAllData(cs: seq<Chunk>, m: nat)
    requires AllData(cs) && m <= |cs|
    ensures AllData(cs[m..])
  {
    forall i | 0 <= i < |cs[m..]| ensures cs[m..][i].Data? {
      assert cs[m..][i] == cs[i + m];
    }
  }

  /** A body split after its length prefix: the frame is complete when
      the rest holds the announced number of bytes. */
  lemma FrameFromParts(u: seq<byte>, head: seq<byte>, after: seq<byte>)
    requires |head| == LENGTH_SIZE && head + after == u
    ensures var len := FromBigEndian(head);
      var f := DecodeFrame(u);
      && (f.Some? <==> len <= |after|)
      && (f.Some? ==> f.value == (after[..len], after[len..]))
  {
    SplitAt(head, after, u);
    var len := FromBigEndian(head);
    if len <= |after| {
      SliceOfSlice(u, LENGTH_SIZE, len);
    }
  }

  lemma SliceOfSlice(u: seq<byte>, a: nat, len: nat)
    requires a + len <= |u|
    ensures u[a..][..len] == u[a..a + len] && u[a..][len..] == u[a + len..]
  {
  }

  /** A concatenation splits back into its parts. */
  lemma SplitAt(a: seq<byte>, b: seq<byte>, c: seq<byte>)
    requires a + b == c
    ensures a == c[..|a|] && b == c[|a|..]
  {
  }

  /** The event reporting a blob that fails its check after being written. */
  function ValidationEvents(codecs: Env.Codecs, disk: Env.Disk, root: Path, p: SdpPackage): seq<Event>
    requires |p.md5Bin| == 16
  {
    match Validation.ValidateSdpPackage(codecs, disk, root, p)
    case None => []
    case Some(e) => [Error(InvalidFile(RapidStore.GetPoolPath(root, p), e))]
  }

  /** Writing a received blob to its pool path, and checking it. */
  function Store(codecs: Env.Codecs, root: Path, p: SdpPackage, st: Progress, data: seq<byte>): Progress
    requires |p.md5Bin| == 16
  {
    var disk := st.disk[RapidStore.GetPoolPath(root, p) := data];
    st.(disk := disk, events := st.events + ValidationEvents(codecs, disk, root, p))
  }

  /** The loop over the missing blobs: read a frame, write it to the
      blob's pool path, and report it if the written file fails its
      check. A failing check does not stop the loop; a failing read does,
      keeping the files already written. */
  function DownloadMissing(codecs: Env.Codecs, root: Path, missing: seq<SdpPackage>, st: Progress): (out: (Progress, Result<(), Failure>))
    requires RapidStore.DigestsWellSized(missing)
    decreases |missing|
    ensures st.events <= out.0.events
    ensures out.1.Err? ==> out.1.error == NoMoreData || out.1.error == NetworkError
  {
    if |missing| == 0 then (st, Ok(()))
    else
      var (st1, frame) := ReadFrame(st);
      if frame.Err? then (st1, Err(frame.error))
      else
        DownloadMissing(codecs, root, missing[1..], Store(codecs, root, missing[0], st1, frame.value))
  }

  /** The loop accounts for every byte of the stream, keeps a stream
      without transport errors free of them, and fails with
      `NetworkError` only on a stream that has one. */
  lemma {:induction false} DownloadMissingAccounts(codecs: Env.Codecs, root: Path, missing: seq<SdpPackage>, st: Progress)
    requires RapidStore.DigestsWellSized(missing)
    decreases |missing|
    ensures var out := DownloadMissing(codecs, root, missing, st);
      && Accounted(out.0) == Accounted(st)
      && (AllData(st.reader.rest) ==> AllData(out.0.reader.rest))
      && (out.1.Err? && out.1.error == NetworkError ==> !AllData(st.reader.rest))
  {
    if |missing| > 0 {
      var (st1, frame) := ReadFrame(st);
      if AllData(st.reader.rest) {
        ReadFrameDecodes(st);
      }
      if frame.Ok? {
        var st2 := Store(codecs, root, missing[0], st1, frame.value);
        StoreKeepsReader(codecs, root, missing[0], st1, frame.value);
        DownloadMissingAccounts(codecs, root, missing[1..], st2);
      }
    }
  }

  /** Storing a blob writes its payload to its pool path and nothing
      else, leaves the reader and the downloaded count alone, and adds one
      event exactly when the written file fails its check, naming the path
      and the failure. */
  lemma StoreWritesBlob(codecs: Env.Codecs, root: Path, p: SdpPackage, st: Progress, data: seq<byte>)
    requires |p.md5Bin| == 16
    ensures var s := Store(codecs, root, p, st, data);
      var path := RapidStore.GetPoolPath(root, p);
      && path in s.disk && s.disk[path] == data
      && (forall q :: q != path ==> (q in s.disk <==> q in st.disk))
      && (forall q :: q != path && q in st.disk ==> s.disk[q] == st.disk[q])
      && s.reader == st.reader && s.downloaded == st.downloaded
      && st.events <= s.events
      && (|s.events| == |st.events| + 1 <==> Validation.ValidateSdpPackage(codecs, s.disk, root, p).Some?)
      && (|s.events| != |st.events| + 1 ==> s.events == st.events)
      && (|s.events| == |st.events| + 1 ==>
            s.events[|st.events|] == Error(InvalidFile(path, Validation.ValidateSdpPackage(codecs, s.disk, root, p).value)))
  {
  }

  lemma StoreKeepsReader(codecs: Env.Codecs, root: Path, p: SdpPackage, st: Progress, data: seq<byte>)
    requires |p.md5Bin| == 16
    ensures Store(codecs, root, p, st, data).reader == st.reader
    ensures Accounted(Store(codecs, root, p, st, data)) == Accounted(st)
  {
  }

  /** The HTTP response to the request: the `Content-Length` reported to
      the output and the body's chunks. */
  datatype Response = Response(size: nat, chunks: seq<Chunk>)

  /** Everything a download leaves behind: the files on disk (including
      blobs written before a failure), the events reported, and the result. */
  datatype Outcome = Outcome(disk: Env.Disk, events: seq<Event>, result: Result<(), Failure>)

  /** Some blob is requested by the bitmap. */
  predicate AnyRequested(bitmap: seq<bv8>) {
    exists k :: 0 <= k < |bitmap| && bitmap[k] != 0
  }

  /** `download_sdp_files_with_url`. An empty descriptor and a bitmap that
      requests nothing are assertion failures. A request that fails is
      `DownloadFailed`. Otherwise the missing blobs (computed again from
      the disk) receive the frames of the body in order, the end of the
      blobs is reported, and any bytes left in the stream are reported as
      an error without failing the download. */
  function DownloadSdpFilesWithUrl(codecs: Env.Codecs, root: Path, disk: Env.Disk, bitmap: seq<bv8>,
                                   sdpFiles: seq<SdpPackage>, response: Option<Response>): (out: Outcome)
    requires RapidStore.DigestsWellSized(sdpFiles)
    ensures |sdpFiles| == 0 || !AnyRequested(bitmap) ==> out.result.Err? && out.result.error.Panic? && out.disk == disk
    ensures out.result.Ok? ==> response.Some? && |out.events| >= 2 && out.events[0] == DownloadStarted(response.value.size)
    ensures out.result.Ok? ==> DownloadFinished in out.events
  {
    if |sdpFiles| == 0 then Outcome(disk, [], Err(Panic("assertion failed: sdp_files.len() != 0")))
    else if !AnyRequested(bitmap) then Outcome(disk, [], Err(Panic("assertion failed: download_map has a non-zero byte")))
    else if response.None? then Outcome(disk, [], Err(DownloadFailed))
    else
      var missing := RapidStore.FindMissingFiles(root, disk, sdpFiles);
      var st0 := Progress(Reader(response.value.chunks, []), disk, [DownloadStarted(response.value.size)], 0);
      var (st, res) := DownloadMissing(codecs, root, missing, st0);
      if res.Err? then Outcome(st.disk, st.events, res)
      else
        var events := st.events + [DownloadFinished];
        match ReadRemainder(st.reader)
        case Err(e) => Outcome(st.disk, events, Err(e))
        case Ok(remaining) =>
          Outcome(st.disk, events + (if |remaining| > 0 then [Error(BytesRemaining(|remaining|))] else []), Ok(()))
  }

  // ---------------------------------------------------------------------
  // Properties of the download
  // ---------------------------------------------------------------------

  /** The loop over the missing blobs, on a stream without transport
      errors, writes the frames of the unread bytes to the blobs in order,
      and succeeds exactly when every missing blob has a complete frame. */
  lemma {:induction false} DownloadMissingDecodes(codecs: Env.Codecs, root: Path, missing: seq<SdpPackage>, st: Progress)
    requires RapidStore.DigestsWellSized(missing) && AllData(st.reader.rest)
    ensures LoopDecodes(codecs, root, missing, st)
    decreases |missing|
  {
    if |missing| == 0 {
      assert DecodeFrames(Unread(st.reader), 0) == Frames([], Unread(st.reader), true);
    } else if ReadFrame(st).1.Ok? {
      var r := ReadFrame(st);
      DownloadMissingDecodes(codecs, root, missing[1..], Store(codecs, root, missing[0], r.0, r.1.value));
      DecodesAfterFrame(codecs, root, missing, st);
    } else {
      DecodesNoFrame(codecs, root, missing, st);
    }
  }

  /** The loop's state and result is as `DownloadMissingDecodes` states. */
  predicate LoopDecodes(codecs: Env.Codecs, root: Path, missing: seq<SdpPackage>, st: Progress)
    requires RapidStore.DigestsWellSized(missing)
  {
    var out := DownloadMissing(codecs, root, missing, st);
    var f := DecodeFrames(Unread(st.reader), |missing|);
    && out.0.disk == WriteAll(st.disk, root, missing, f.payloads)
    && (out.1.Ok? <==> f.complete)
    && (out.1.Err? ==> out.1.error == NoMoreData)
    && (out.1.Ok? ==> Unread(out.0.reader) == f.rest && AllData(out.0.reader.rest))
  }

  /** The step of `DownloadMissingDecodes` where the first frame is incomplete. */
  lemma DecodesNoFrame(codecs: Env.Codecs, root: Path, missing: seq<SdpPackage>, st: Progress)
    requires RapidStore.DigestsWellSized(missing) && AllData(st.reader.rest) && |missing| > 0
    requires ReadFrame(st).1.Err?
    ensures LoopDecodes(codecs, root, missing, st)
  {
    var r := ReadFrame(st);
    ReadFrameDecodes(st);
    assert DownloadMissing(codecs, root, missing, st) == (r.0, Err(r.1.error));
    assert DecodeFrames(Unread(st.reader), |missing|) == Frames([], Unread(st.reader), false);
    assert WriteAll(st.disk, root, missing, []) == st.disk;
  }

  /** The step of `DownloadMissingDecodes` where the first frame is
      complete, given the property for the rest of the loop. */
  lemma DecodesAfterFrame(codecs: Env.Codecs, root: Path, missing: seq<SdpPackage>, st: Progress)
    requires RapidStore.DigestsWellSized(missing) && AllData(st.reader.rest) && |missing| > 0
    requires ReadFrame(st).1.Ok?
    requires LoopDecodes(codecs, root, missing[1..], Store(codecs, root, missing[0], ReadFrame(st).0, ReadFrame(st).1.value))
    ensures LoopDecodes(codecs, root, missing, st)
  {
    var r := ReadFrame(st);
    ReadFrameDecodes(st);
    var st2 := Store(codecs, root, missing[0], r.0, r.1.value);
    var u := Unread(st.reader);
    var rest := Unread(st2.reader);
    assert DecodeFrame(u) == Some((r.1.value, rest));
    var g := DecodeFrames(rest, |missing| - 1);
    assert DecodeFrames(u, |missing|) == Frames([r.1.value] + g.payloads, g.rest, g.complete);
    WriteAllStep(st.disk, root, missing, r.1.value, g.payloads);
    assert st2.disk == st.disk[RapidStore.GetPoolPath(root, missing[0]) := r.1.value];
    assert DownloadMissing(codecs, root, missing, st) == DownloadMissing(codecs, root, missing[1..], st2);
  }

  lemma WriteAllStep(disk: Env.Disk, root: Path, missing: seq<SdpPackage>, p: seq<byte>, ps: seq<seq<byte>>)
    requires RapidStore.DigestsWellSized(missing) && |ps| < |missing|
    ensures WriteAll(disk, root, missing, [p] + ps)
         == WriteAll(disk[RapidStore.GetPoolPath(root, missing[0]) := p], root, missing[1..], ps)
  {
    assert ([p] + ps)[1..] == ps;
  }

  /** On a stream without transport errors, a download writes the `k`-th
      frame of the body to the `k`-th missing blob, fails with
      `NoMoreData` exactly when the body holds fewer complete frames than
      there are missing blobs, and otherwise ends by reporting the end of
      the blobs or, if bytes follow the last frame, how many. */
  lemma DownloadIsFrameDecoding(codecs: Env.Codecs, root: Path, disk: Env.Disk, bitmap: seq<bv8>,
                                sdpFiles: seq<SdpPackage>, response: Response)
    requires RapidStore.DigestsWellSized(sdpFiles) && |sdpFiles| > 0 && AnyRequested(bitmap)
    requires AllData(response.chunks)
    ensures var out := DownloadSdpFilesWithUrl(codecs, root, disk, bitmap, sdpFiles, Some(response));
      var missing := RapidStore.FindMissingFiles(root, disk, sdpFiles);
      var f := DecodeFrames(Flatten(response.chunks), |missing|);
      && out.disk == WriteAll(disk, root, missing, f.payloads)
      && (out.result.Ok? <==> f.complete)
      && (out.result.Err? ==> out.result.error == NoMoreData)
      && (out.result.Ok? ==>
            out.events[|out.events| - 1] == if |f.rest| > 0 then Error(BytesRemaining(|f.rest|)) else DownloadFinished)
  {
    var missing := RapidStore.FindMissingFiles(root, disk, sdpFiles);
    var st0 := Progress(Reader(response.chunks, []), disk, [DownloadStarted(response.size)], 0);
    assert Unread(st0.reader) == Flatten(response.chunks);
    DownloadMissingDecodes(codecs, root, missing, st0);
    DownloadAfterLoop(codecs, root, disk, bitmap, sdpFiles, response);
    var loop := DownloadMissing(codecs, root, missing, st0);
    if loop.1.Ok? {
      assert ReadRemainder(loop.0.reader) == Ok(DecodeFrames(Flatten(response.chunks), |missing|).rest);
    }
  }

  /** What a download does once its preconditions hold: the loop over the
      missing blobs, then the check for bytes left over. */
  lemma DownloadAfterLoop(codecs: Env.Codecs, root: Path, disk: Env.Disk, bitmap: seq<bv8>,
                          sdpFiles: seq<SdpPackage>, response: Response)
    requires RapidStore.DigestsWellSized(sdpFiles) && |sdpFiles| > 0 && AnyRequested(bitmap)
    ensures var out := DownloadSdpFilesWithUrl(codecs, root, disk, bitmap, sdpFiles, Some(response));
      var missing := RapidStore.FindMissingFiles(root, disk, sdpFiles);
      var st0 := Progress(Reader(response.chunks, []), disk, [DownloadStarted(response.size)], 0);
      var loop := DownloadMissing(codecs, root, missing, st0);
      && out.disk == loop.0.disk
      && (loop.1.Err? ==> out.result == loop.1)
      && (loop.1.Ok? ==> (out.result.Ok? <==> ReadRemainder(loop.0.reader).Ok?))
      && (loop.1.Ok? && ReadRemainder(loop.0.reader).Ok? ==>
            var rem := ReadRemainder(loop.0.reader).value;
            out.events[|out.events| - 1] == if |rem| > 0 then Error(BytesRemaining(|rem|)) else DownloadFinished)
  {
  }

  /** How the body is cut into chunks does not matter: two streams
      carrying the same bytes leave the same files and the same result. */
  lemma ChunkingDoesNotMatter(codecs: Env.Codecs, root: Path, disk: Env.Disk, bitmap: seq<bv8>,
                              sdpFiles: seq<SdpPackage>, a: Response, b: Response)
    requires RapidStore.DigestsWellSized(sdpFiles)
    requires AllData(a.chunks) && AllData(b.chunks) && Flatten(a.chunks) == Flatten(b.chunks)
    ensures var outA := DownloadSdpFilesWithUrl(codecs, root, disk, bitmap, sdpFiles, Some(a));
      var outB := DownloadSdpFilesWithUrl(codecs, root, disk, bitmap, sdpFiles, Some(b));
      outA.disk == outB.disk && outA.result == outB.result
  {
    if |sdpFiles| > 0 && AnyRequested(bitmap) {
      var outA := DownloadSdpFilesWithUrl(codecs, root, disk, bitmap, sdpFiles, Some(a));
      var outB := DownloadSdpFilesWithUrl(codecs, root, disk, bitmap, sdpFiles, Some(b));
      var f := DecodeFrames(Flatten(a.chunks), |RapidStore.FindMissingFiles(root, disk, sdpFiles)|);
      DownloadIsFrameDecoding(codecs, root, disk, bitmap, sdpFiles, a);
      DownloadIsFrameDecoding(codecs, root, disk, bitmap, sdpFiles, b);
      assert outA.result.Ok? <==> f.complete;
      assert outB.result.Ok? <==> f.complete;
      if f.complete {
        UnitResult(outA.result);
        UnitResult(outB.result);
      } else {
        assert outA.result == Err(NoMoreData) == outB.result;
      }
    } else {
      RefusalIgnoresResponse(codecs, codecs, root, disk, bitmap, sdpFiles, Some(a), Some(b));
    }
  }

  lemma UnitResult(r: Result<(), Failure>)
    requires r.Ok?
    ensures r == Ok(())
  {
    var u: () := r.value;
    assert u == ();
  }

  /** A refused download looks neither at the response nor at the checks. */
  lemma RefusalIgnoresResponse(c1: Env.Codecs, c2: Env.Codecs, root: Path, disk: Env.Disk, bitmap: seq<bv8>,
                               sdpFiles: seq<SdpPackage>, a: Option<Response>, b: Option<Response>)
    requires RapidStore.DigestsWellSized(sdpFiles)
    requires |sdpFiles| == 0 || !AnyRequested(bitmap)
    ensures DownloadSdpFilesWithUrl(c1, root, disk, bitmap, sdpFiles, a)
         == DownloadSdpFilesWithUrl(c2, root, disk, bitmap, sdpFiles, b)
  {
  }

  /** A server that sends exactly one frame per missing blob, in order,
      has every blob stored with its payload, and nothing is reported
      left over. */
  lemma ServerStreamIsStored(codecs: Env.Codecs, root: Path, disk: Env.Disk, bitmap: seq<bv8>,
                             sdpFiles: seq<SdpPackage>, payloads: seq<seq<byte>>, response: Response)
    requires RapidStore.DigestsWellSized(sdpFiles) && |sdpFiles| > 0 && AnyRequested(bitmap)
    requires var missing := RapidStore.FindMissingFiles(root, disk, sdpFiles);
      && |payloads| == |missing|
      && forall i, j :: 0 <= i < j < |missing| ==> missing[i].md5Bin != missing[j].md5Bin
    requires Framable(payloads) && AllData(response.chunks) && Flatten(response.chunks) == EncodeFrames(payloads)
    ensures var out := DownloadSdpFilesWithUrl(codecs, root, disk, bitmap, sdpFiles, Some(response));
      var missing := RapidStore.FindMissingFiles(root, disk, sdpFiles);
      && out.result == Ok(())
      && out.events[|out.events| - 1] == DownloadFinished
      && forall k :: 0 <= k < |missing| ==>
           RapidStore.GetPoolPath(root, missing[k]) in out.disk && out.disk[RapidStore.GetPoolPath(root, missing[k])] == payloads[k]
  {
    var missing := RapidStore.FindMissingFiles(root, disk, sdpFiles);
    FramesRoundTrip(payloads, []);
    assert EncodeFrames(payloads) + [] == EncodeFrames(payloads);
    var f := DecodeFrames(Flatten(response.chunks), |missing|);
    assert f == Frames(payloads, [], true);
    DownloadIsFrameDecoding(codecs, root, disk, bitmap, sdpFiles, response);
    UnitResult(DownloadSdpFilesWithUrl(codecs, root, disk, bitmap, sdpFiles, Some(response)).result);
    var written := WriteAll(disk, root, missing, payloads);
    forall k | 0 <= k < |missing|
      ensures RapidStore.GetPoolPath(root, missing[k]) in written
      ensures written[RapidStore.GetPoolPath(root, missing[k])] == payloads[k] {
      WriteAllContents(disk, root, missing, payloads, k);
    }
  }

  /** Reading a frame does not look at the events reported so far. */
  lemma ReadFrameIgnoresEvents(st: Progress, events: seq<Event>)
    ensures ReadFrame(st.(events := events)).1 == ReadFrame(st).1
    ensures ReadFrame(st.(events := events)).0.(events := []) == ReadFrame(st).0.(events := [])
  {
  }

  /** The loop's files and result do not depend on the events reported so
      far, nor on what the per-blob check finds. */
  lemma {:induction false} DownloadMissingIgnoresChecks(c1: Env.Codecs, c2: Env.Codecs, root: Path, missing: seq<SdpPackage>,
                                                       st1: Progress, st2: Progress)
    requires RapidStore.DigestsWellSized(missing)
    requires st1.(events := []) == st2.(events := [])
    ensures var out1 := DownloadMissing(c1, root, missing, st1);
      var out2 := DownloadMissing(c2, root, missing, st2);
      out1.0.(events := []) == out2.0.(events := []) && out1.1 == out2.1
    decreases |missing|
  {
    if |missing| > 0 {
      assert st2 == st1.(events := st2.events);
      ReadFrameIgnoresEvents(st1, st2.events);
      var (a1, frame) := ReadFrame(st1);
      var (a2, _) := ReadFrame(st2);
      if frame.Ok? {
        var b1 := Store(c1, root, missing[0], a1, frame.value);
        var b2 := Store(c2, root, missing[0], a2, frame.value);
        DownloadMissingIgnoresChecks(c1, c2, root, missing[1..], b1, b2);
      }
    }
  }

  /** A blob that fails its check after being written is only reported:
      the files a download leaves and its result are the same whatever
      the check finds. */
  lemma DownloadIgnoresChecks(c1: Env.Codecs, c2: Env.Codecs, root: Path, disk: Env.Disk, bitmap: seq<bv8>,
                              sdpFiles: seq<SdpPackage>, response: Option<Response>)
    requires RapidStore.DigestsWellSized(sdpFiles)
    ensures var out1 := DownloadSdpFilesWithUrl(c1, root, disk, bitmap, sdpFiles, response);
      var out2 := DownloadSdpFilesWithUrl(c2, root, disk, bitmap, sdpFiles, response);
      out1.disk == out2.disk && out1.result == out2.result
  {
    if |sdpFiles| > 0 && AnyRequested(bitmap) && response.Some? {
      var missing := RapidStore.FindMissingFiles(root, disk, sdpFiles);
      var st0 := Progress(Reader(response.value.chunks, []), disk, [DownloadStarted(response.value.size)], 0);
      DownloadMissingIgnoresChecks(c1, c2, root, missing, st0, st0);
      DownloadAfterLoop(c1, root, disk, bitmap, sdpFiles, response.value);
      DownloadAfterLoop(c2, root, disk, bitmap, sdpFiles, response.value);
      var l1 := DownloadMissing(c1, root, missing, st0);
      var l2 := DownloadMissing(c2, root, missing, st0);
      assert l1.0.reader == l2.0.reader && l1.0.disk == l2.0.disk;
      var out1 := DownloadSdpFilesWithUrl(c1, root, disk, bitmap, sdpFiles, response);
      if out1.result.Ok? {
        UnitResult(out1.result);
        UnitResult(DownloadSdpFilesWithUrl(c2, root, disk, bitmap, sdpFiles, response).result);
      }
    } else if |sdpFiles| == 0 || !AnyRequested(bitmap) {
      RefusalIgnoresResponse(c1, c2, root, disk, bitmap, sdpFiles, response, response);
    }
  }
}
