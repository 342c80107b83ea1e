/** File streams: segmentation into data frames, reassembly, and the PUT and GET exchanges. */
module FileTransfer {
  import opened Common
  import opened Swsp

  const MAX := DEFAULT_MAX_PAYLOAD_LEN

  datatype FileOperation = Get | Put | List | Stat | Delete

  /** An inclusive byte range `[start, end]`. */
  datatype Range = Range(start: u64, end: u64)

  datatype Request = Request(
    operation: FileOperation,
    path: string,
    size: u64,
    overwrite: bool,
    range: Option<Range>)

  datatype FileError =
    | EmptyPath | RangeReversed | SizeOnlyForPut | OverwriteOnlyForPut | RangeOnlyForGet
    | BadDiscriminator | BadRangeShape | NegativeRange | UnsupportedOperation | NegativeSize
    | ControlStream | Codec(frameError: FrameError) | TrailingBytes
    | Cancelled | TooLarge | NotADataFrame | TooManyBytes | NoFin | SizeMismatch
    | NotFound | AlreadyExists | RangeOnEmptyFile | RangeOutOfBounds
    | BadMetadata | UnexpectedControl | ChannelClosed

  // ---- Requests on the wire ------------------------------------------------

  /** `stream.FileOp`, with its signed 64-bit fields. */
  datatype WireFileOp = WireFileOp(
    discriminator: string,
    op: int,
    path: string,
    size: i64,
    overwrite: bool,
    range: seq<i64>)

  function OpToWire(o: FileOperation): int {
    match o case Get => 1 case Put => 2 case List => 3 case Stat => 4 case Delete => 5
  }

  function OpFromWire(n: int): Option<FileOperation> {
    if n == 1 then Some(Get) else if n == 2 then Some(Put) else if n == 3 then Some(List)
    else if n == 4 then Some(Stat) else if n == 5 then Some(Delete) else None
  }

  function ShapeError(r: Request): Option<FileError> {
    if Blank(r.path) then Some(EmptyPath)
    else if r.range.Some? && r.range.value.start > r.range.value.end then Some(RangeReversed)
    else if r.operation != Put && r.size != 0 then Some(SizeOnlyForPut)
    else if r.operation != Put && r.overwrite then Some(OverwriteOnlyForPut)
    else if r.operation != Get && r.range.Some? then Some(RangeOnlyForGet)
    else None
  }

  function ToWire(r: Request): WireFileOp {
    WireFileOp("file", OpToWire(r.operation), r.path, Min(r.size, I64_MAX), r.overwrite,
      if r.range.None? then [] else [AsI64(r.range.value.start), AsI64(r.range.value.end)])
  }

  function FromWire(m: WireFileOp): Result<Request, FileError>
  {
    if m.discriminator != "file" then Err(BadDiscriminator)
    else if |m.range| != 0 && |m.range| != 2 then Err(BadRangeShape)
    else if exists i :: 0 <= i < |m.range| && m.range[i] < 0 then Err(NegativeRange)
    else if OpFromWire(m.op).None? then Err(UnsupportedOperation)
    else if m.size < 0 then Err(NegativeSize)
    else
      var range := if |m.range| == 0 then None else Some(Range(AsU64(m.range[0]), AsU64(m.range[1])));
      var r := Request(OpFromWire(m.op).value, m.path, m.size, m.overwrite, range);
      if ShapeError(r).Some? then Err(ShapeError(r).value) else Ok(r)
  }

  /** Fits the signed fields of the wire message. */
  predicate Representable(r: Request) {
    r.size <= I64_MAX
    && (r.range.Some? ==> r.range.value.start <= I64_MAX && r.range.value.end <= I64_MAX)
  }

  /** A request survives the wire exactly when its shape is valid and its numbers are signed 64-bit. */
  lemma RequestRoundTrip(r: Request)
    ensures FromWire(ToWire(r)) == Ok(r) <==> ShapeError(r).None? && Representable(r)
  {
  }

  /** What a request of a valid shape is, and which complaint a malformed one draws first. */
  lemma ShapeExactly(r: Request)
    ensures var reversed := r.range.Some? && r.range.value.end < r.range.value.start;
      && (ShapeError(r).None? <==>
            && !Blank(r.path) && !reversed
            && (r.size != 0 || r.overwrite ==> r.operation == Put) && (r.range.Some? ==> r.operation == Get))
      && (ShapeError(r) == Some(EmptyPath) <==> Blank(r.path))
      && (ShapeError(r) == Some(RangeReversed) <==> !Blank(r.path) && reversed)
      && (ShapeError(r) == Some(SizeOnlyForPut) <==>
            !Blank(r.path) && !reversed && r.operation != Put && r.size != 0)
      && (ShapeError(r) == Some(OverwriteOnlyForPut) <==>
            !Blank(r.path) && !reversed && r.operation != Put && r.size == 0 && r.overwrite)
      && (ShapeError(r) == Some(RangeOnlyForGet) <==>
            && !Blank(r.path) && !reversed && r.range.Some? && r.operation != Get
            && (r.operation == Put || (r.size == 0 && !r.overwrite)))
  {
  }

  /** The wire message says this request. */
  ghost predicate Says(m: WireFileOp, r: Request) {
    && m.discriminator == "file" && m.op == OpToWire(r.operation) && m.path == r.path
    && m.size == r.size && m.overwrite == r.overwrite
    && m.range == if r.range.None? then [] else [r.range.value.start, r.range.value.end]
  }

  ghost predicate Negative(range: seq<i64>) { exists i :: 0 <= i < |range| && range[i] < 0 }

  /** A wire message is read exactly as the well-shaped request it says, or refused for the first thing wrong. */
  lemma FromWireExactly(m: WireFileOp, r: Request)
    ensures FromWire(m) == Ok(r) <==> Says(m, r) && ShapeError(r).None?
    ensures FromWire(m) == Err(BadDiscriminator) <==> m.discriminator != "file"
    ensures FromWire(m) == Err(BadRangeShape) <==> m.discriminator == "file" && |m.range| !in {0, 2}
    ensures FromWire(m) == Err(NegativeRange) <==> m.discriminator == "file" && |m.range| in {0, 2} && Negative(m.range)
    ensures FromWire(m) == Err(UnsupportedOperation) <==>
      m.discriminator == "file" && |m.range| in {0, 2} && !Negative(m.range) && !(1 <= m.op <= 5)
    ensures FromWire(m) == Err(NegativeSize) <==>
      m.discriminator == "file" && |m.range| in {0, 2} && !Negative(m.range) && 1 <= m.op <= 5 && m.size < 0
  {
    if |m.range| == 2 { assert m.range == [m.range[0], m.range[1]]; }
  }

  // ---- Segmentation --------------------------------------------------------

  /** Builds one data frame; encoding it once is how the source checks its size. */
  function EncodeDataFrame(id: u32, data: seq<byte>, final: bool): (r: Result<Frame, FileError>)
    ensures r.Ok? <==> id != 0 && |data| <= MAX
    ensures r.Ok? ==> r.value.payload == data && r.value.streamId == id && GoodData(r.value)
    ensures r.Ok? ==> (IsFin(r.value.flags) <==> final) && (IsMore(r.value.flags) <==> !final)
  {
    if id == 0 then Err(ControlStream)
    else
      var frame := Frame(id, if final then DAT_FIN else DAT_MORE, data);
      var encoded := Encoded(frame, MAX);
      if encoded.Err? then Err(Codec(encoded.error)) else Ok(frame)
  }

  predicate GoodData(f: Frame) {
    f.streamId != 0 && IsDat(f.flags) && !IsSyn(f.flags)
  }

  /** The data frames of a body: full frames marked MORE and one last frame marked FIN. */
  function Segments(id: u32, data: seq<byte>): (r: seq<Frame>)
    ensures |r| >= 1
    decreases |data|
  {
    if |data| <= MAX then [Frame(id, DAT_FIN, data)]
    else [Frame(id, DAT_MORE, data[..MAX])] + Segments(id, data[MAX..])
  }

  function Payloads(frames: seq<Frame>): seq<byte> {
    if frames == [] then [] else frames[0].payload + Payloads(frames[1..])
  }

  /** Every frame fits, exactly the last carries FIN, and the payloads are the body. */
  lemma {:induction false} SegmentsShape(id: u32, data: seq<byte>)
    ensures var frames := Segments(id, data);
      && Payloads(frames) == data
      && AllEncodable(frames, MAX)
      && forall i :: 0 <= i < |frames| ==>
           && frames[i].streamId == id
           && IsDat(frames[i].flags) && !IsSyn(frames[i].flags)
           && (IsFin(frames[i].flags) <==> i == |frames| - 1)
    decreases |data|
  {
    var frames := Segments(id, data);
    if |data| <= MAX {
      assert frames[1..] == [];
      assert data + [] == data;
    } else {
      SegmentsShape(id, data[MAX..]);
      var rest := Segments(id, data[MAX..]);
      assert frames[1..] == rest;
      assert data[..MAX] + data[MAX..] == data;
      forall i | 1 <= i < |frames| ensures frames[i] == rest[i - 1] {}
    }
  }

  /** The client's chunk loop, with its own test for the last chunk. */
  method SendUpload(id: u32, upload: seq<byte>) returns (r: Result<seq<Frame>, FileError>)
    ensures r == if id == 0 then Err(ControlStream) else Ok(Segments(id, upload))
  {
    var frames: seq<Frame> := [];
    if |upload| == 0 {
      var only := EncodeDataFrame(id, [], true);
      if only.Err? { return Err(only.error); }
      return Ok([only.value]);
    }
    var index := 0;
    while index * MAX < |upload|
      invariant 0 <= index && (index - 1) * MAX < |upload|
      invariant id == 0 ==> index == 0
      invariant index * MAX < |upload| ==> frames + Segments(id, upload[index * MAX..]) == Segments(id, upload)
      invariant index * MAX >= |upload| ==> frames == Segments(id, upload)
      decreases |upload| - index * MAX
    {
      var rest := upload[index * MAX..];
      var chunk := rest[..Min(MAX, |rest|)];
      var next := EncodeDataFrame(id, chunk, (index + 1) * MAX >= |upload|);
      if next.Err? { return Err(next.error); }
      if |rest| > MAX {
        assert rest[MAX..] == upload[(index + 1) * MAX..];
        assert frames + Segments(id, rest) == frames + [next.value] + Segments(id, rest[MAX..]);
      } else {
        assert chunk == rest;
      }
      frames := frames + [next.value];
      index := index + 1;
    }
    r := Ok(frames);
  }

  // ---- Reassembly ----------------------------------------------------------

  /**
   * What the collector returns from frame `i` on, holding `data`. `cancelAt` is the number of
   * cancellation polls that come back clear: the flag is a latch, polled once per frame.
   */
  function CollectFrom(frames: seq<Frame>, i: nat, data: seq<byte>, size: nat, cancelAt: nat)
    : Result<seq<byte>, FileError>
    requires i <= |frames|
    decreases |frames| - i
  {
    if i == |frames| then Err(NoFin)
    else if cancelAt <= i then Err(Cancelled)
    else if !GoodData(frames[i]) then Err(NotADataFrame)
    else if |data| + |frames[i].payload| > size then Err(TooManyBytes)
    else
      var data' := data + frames[i].payload;
      if !IsFin(frames[i].flags) then CollectFrom(frames, i + 1, data', size, cancelAt)
      else if |data'| != size then Err(SizeMismatch)
      else Ok(data')
  }

  function Collected(frames: seq<Frame>, size: nat, maximum: nat, cancelAt: nat): Result<seq<byte>, FileError> {
    if size > maximum then Err(TooLarge) else CollectFrom(frames, 0, [], size, cancelAt)
  }

  method CollectDataFrames(frames: seq<Frame>, size: nat, maximum: nat, cancelAt: nat)
    returns (r: Result<seq<byte>, FileError>)
    ensures r == Collected(frames, size, maximum, cancelAt)
  {
    if size > maximum { return Err(TooLarge); }
    var data: seq<byte> := [];
    var finished := false;
    var i := 0;
    while i < |frames| && !finished
      invariant 0 <= i <= |frames|
      invariant !finished ==> CollectFrom(frames, i, data, size, cancelAt) == Collected(frames, size, maximum, cancelAt)
      invariant finished ==>
        Collected(frames, size, maximum, cancelAt) == if |data| != size then Err(SizeMismatch) else Ok(data)
      decreases |frames| - i
    {
      if cancelAt <= i { return Err(Cancelled); }
      if !GoodData(frames[i]) { return Err(NotADataFrame); }
      if |data| + |frames[i].payload| > size { return Err(TooManyBytes); }
      data := data + frames[i].payload;
      finished := IsFin(frames[i].flags);
      i := i + 1;
    }
    if !finished { return Err(NoFin); }
    if |data| != size { return Err(SizeMismatch); }
    r := Ok(data);
  }

  /** `k` closes a well-formed body of `size` bytes: the first FIN, after data frames only. */
  ghost predicate CompleteBody(frames: seq<Frame>, k: nat, size: nat) {
    && k < |frames|
    && IsFin(frames[k].flags)
    && (forall i :: 0 <= i < k ==> !IsFin(frames[i].flags))
    && (forall i :: 0 <= i <= k ==> GoodData(frames[i]))
    && |Payloads(frames[..k + 1])| == size
  }

  lemma {:induction false} PayloadsSnoc(frames: seq<Frame>, f: Frame)
    ensures Payloads(frames + [f]) == Payloads(frames) + f.payload
  {
    if frames == [] {
      assert frames + [f] == [f] && [f][1..] == [];
    } else {
      assert (frames + [f])[1..] == frames[1..] + [f];
      PayloadsSnoc(frames[1..], f);
    }
  }

  lemma {:induction false} PayloadsMonotone(frames: seq<Frame>, i: nat, k: nat)
    requires i <= k <= |frames|
    ensures |Payloads(frames[..i])| <= |Payloads(frames[..k])|
    decreases k - i
  {
    if i < k {
      assert frames[..i + 1] == frames[..i] + [frames[i]];
      PayloadsSnoc(frames[..i], frames[i]);
      PayloadsMonotone(frames, i + 1, k);
    }
  }

  lemma {:induction false} CollectFromSound(frames: seq<Frame>, i: nat, size: nat, cancelAt: nat)
    requires i <= |frames|
    requires forall j :: 0 <= j < i ==> GoodData(frames[j]) && !IsFin(frames[j].flags)
    ensures var r := CollectFrom(frames, i, Payloads(frames[..i]), size, cancelAt);
      r.Ok? ==> exists k :: i <= k < cancelAt && CompleteBody(frames, k, size) && r.value == Payloads(frames[..k + 1])
    decreases |frames| - i
  {
    if i < |frames| {
      assert frames[..i + 1] == frames[..i] + [frames[i]];
      PayloadsSnoc(frames[..i], frames[i]);
      if i < cancelAt && GoodData(frames[i]) {
        if IsFin(frames[i].flags) {
          var r := CollectFrom(frames, i, Payloads(frames[..i]), size, cancelAt);
          assert r.Ok? ==> CompleteBody(frames, i, size);
        } else {
          CollectFromSound(frames, i + 1, size, cancelAt);
        }
      }
    }
  }

  lemma {:induction false} CollectFromComplete(frames: seq<Frame>, i: nat, k: nat, size: nat, cancelAt: nat)
    requires i <= k < cancelAt && CompleteBody(frames, k, size)
    ensures CollectFrom(frames, i, Payloads(frames[..i]), size, cancelAt) == Ok(Payloads(frames[..k + 1]))
    decreases k - i
  {
    assert frames[..i + 1] == frames[..i] + [frames[i]];
    PayloadsSnoc(frames[..i], frames[i]);
    PayloadsMonotone(frames, i + 1, k + 1);
    if i < k {
      CollectFromComplete(frames, i + 1, k, size, cancelAt);
    }
  }

  /**
   * The collector succeeds exactly on a body that fits the limit, consists of data frames up to
   * its first FIN, totals the announced size, and whose polls up to that FIN were clear.
   */
  lemma CollectedExactly(frames: seq<Frame>, size: nat, maximum: nat, cancelAt: nat)
    ensures Collected(frames, size, maximum, cancelAt).Ok? <==>
      size <= maximum && exists k :: 0 <= k < cancelAt && CompleteBody(frames, k, size)
    ensures forall k :: 0 <= k < cancelAt && CompleteBody(frames, k, size) && size <= maximum ==>
      Collected(frames, size, maximum, cancelAt) == Ok(Payloads(frames[..k + 1]))
  {
    CollectFromSound(frames, 0, size, cancelAt);
    forall k | 0 <= k < cancelAt && CompleteBody(frames, k, size)
      ensures CollectFrom(frames, 0, [], size, cancelAt) == Ok(Payloads(frames[..k + 1]))
    {
      CollectFromComplete(frames, 0, k, size, cancelAt);
    }
  }

  /** A data frame that neither ends the body nor takes it past its size. */
  ghost predicate Collects(frames: seq<Frame>, i: nat, size: nat)
    requires i < |frames|
  {
    GoodData(frames[i]) && !IsFin(frames[i].flags) && |Payloads(frames[..i + 1])| <= size
  }

  /** Every frame before `k` is such a frame, before any cancellation. */
  ghost predicate Collecting(frames: seq<Frame>, k: nat, size: nat, cancelAt: nat) {
    k <= |frames| && k <= cancelAt && forall i :: 0 <= i < k ==> Collects(frames, i, size)
  }

  /** What is wrong with the frame at `k`, or with there being none. */
  ghost predicate Spoils(frames: seq<Frame>, k: nat, size: nat, cancelAt: nat, e: FileError)
    requires k <= |frames|
  {
    if k == |frames| then e == NoFin
    else if k == cancelAt then e == Cancelled
    else if !GoodData(frames[k]) then e == NotADataFrame
    else
      var total := |Payloads(frames[..k + 1])|;
      (total > size && e == TooManyBytes) || (total < size && IsFin(frames[k].flags) && e == SizeMismatch)
  }

  lemma CollectingNext(frames: seq<Frame>, i: nat, size: nat, cancelAt: nat)
    requires i < |frames| && Collecting(frames, i, size, cancelAt)
    ensures Collecting(frames, i + 1, size, cancelAt) <==> i < cancelAt && Collects(frames, i, size)
  {
    hide Collects;
  }

  /** The frame at `i` spoils the collection, completes it, or lets it go on. */
  lemma CollectOne(frames: seq<Frame>, i: nat, size: nat, cancelAt: nat, e: FileError)
    requires i <= |frames| && Collecting(frames, i, size, cancelAt)
    ensures var r := CollectFrom(frames, i, Payloads(frames[..i]), size, cancelAt);
      if i == |frames| || !Collecting(frames, i + 1, size, cancelAt) then
        r == Err(e) <==> Spoils(frames, i, size, cancelAt, e)
      else
        && !Spoils(frames, i, size, cancelAt, e)
        && r == CollectFrom(frames, i + 1, Payloads(frames[..i + 1]), size, cancelAt)
  {
    assert i <= cancelAt;
    if i < |frames| {
      assert frames[..i + 1] == frames[..i] + [frames[i]];
      PayloadsSnoc(frames[..i], frames[i]);
      CollectingNext(frames, i, size, cancelAt);
    }
    hide GoodData, IsFin, Payloads, Collecting;
  }

  lemma CollectedBefore(frames: seq<Frame>, i: nat, k: nat, size: nat, cancelAt: nat)
    requires i <= k
    ensures Collecting(frames, k, size, cancelAt) ==> Collecting(frames, i, size, cancelAt)
  {
    hide Collects;
  }

  lemma {:induction false} CollectFromFails(frames: seq<Frame>, i: nat, size: nat, cancelAt: nat, e: FileError)
    requires i <= |frames| && Collecting(frames, i, size, cancelAt)
    ensures CollectFrom(frames, i, Payloads(frames[..i]), size, cancelAt) == Err(e) <==>
      exists k :: i <= k && Collecting(frames, k, size, cancelAt) && Spoils(frames, k, size, cancelAt, e)
    decreases |frames| - i
  {
    CollectOne(frames, i, size, cancelAt, e);
    if i == |frames| || !Collecting(frames, i + 1, size, cancelAt) {
      forall k | i < k ensures !Collecting(frames, k, size, cancelAt) {
        CollectedBefore(frames, i + 1, k, size, cancelAt);
      }
    } else {
      hide Spoils, CollectFrom, Payloads, GoodData, IsFin;
      CollectFromFails(frames, i + 1, size, cancelAt, e);
    }
  }

  /** Collection fails exactly for what is wrong with the first frame that spoils it, an oversized body aside. */
  lemma CollectFailsExactly(frames: seq<Frame>, size: nat, maximum: nat, cancelAt: nat, e: FileError)
    ensures Collected(frames, size, maximum, cancelAt) == Err(e) <==>
      if size > maximum then e == TooLarge
      else exists k :: 0 <= k && Collecting(frames, k, size, cancelAt) && Spoils(frames, k, size, cancelAt, e)
  {
    CollectFromFails(frames, 0, size, cancelAt, e);
  }

  // ---- Across the data channel ---------------------------------------------

  /** One frame through the channel: encode, then decode with no byte left over. */
  function Deliver(f: Frame): Result<Frame, FileError> {
    match Encoded(f, MAX)
    case Err(e) => Err(Codec(e))
    case Ok(bytes) =>
      match Decode(bytes, MAX)
      case Err(e) => Err(Codec(e))
      case Ok(d) => if d.consumed != |bytes| then Err(TrailingBytes) else Ok(d.frame)
  }

  /** The channel is the identity on the frames that fit it, and refuses the others. */
  lemma DeliverExactly(f: Frame)
    ensures |f.payload| <= MAX ==> Deliver(f) == Ok(f)
    ensures |f.payload| > MAX ==> Deliver(f) == Err(Codec(Encoded(f, MAX).error))
  {
    if |f.payload| <= MAX {
      DecodeEncoded(f, MAX, []);
      var bytes := Encoded(f, MAX).value;
      assert bytes + [] == bytes;
    }
  }

  function DeliverAll(frames: seq<Frame>): Result<seq<Frame>, FileError> {
    if frames == [] then Ok([])
    else
      var head := Deliver(frames[0]);
      if head.Err? then Err(head.error)
      else
        var tail := DeliverAll(frames[1..]);
        if tail.Err? then tail else Ok([head.value] + tail.value)
  }

  lemma {:induction false} DeliverAllFits(frames: seq<Frame>)
    requires AllEncodable(frames, MAX)
    ensures DeliverAll(frames) == Ok(frames)
  {
    if frames != [] {
      DeliverExactly(frames[0]);
      DeliverAllFits(frames[1..]);
      assert [frames[0]] + frames[1..] == frames;
    }
  }

  /** Segmenting, sending and collecting any body within the limit returns that body. */
  lemma UploadEndToEnd(id: u32, data: seq<byte>, maximum: nat, cancelAt: nat)
    requires id != 0 && |data| <= maximum && |Segments(id, data)| <= cancelAt
    ensures DeliverAll(Segments(id, data)) == Ok(Segments(id, data))
    ensures Collected(Segments(id, data), |data|, maximum, cancelAt) == Ok(data)
  {
    var frames := Segments(id, data);
    SegmentsShape(id, data);
    DeliverAllFits(frames);
    var k := |frames| - 1;
    assert frames[..k + 1] == frames;
    assert CompleteBody(frames, k, |data|);
    CollectedExactly(frames, |data|, maximum, cancelAt);
  }

  // ---- Responses -----------------------------------------------------------

  datatype FileInfo = FileInfo(name: string, size: int, isDir: bool, modified: string, mode: string)

  /** The protobuf encoding of `FileInfo`, given from outside. */
  datatype InfoCodec = InfoCodec(encode: FileInfo -> seq<byte>, decode: seq<byte> -> Option<FileInfo>)

  /** Decoding inverts encoding. */
  ghost predicate Faithful(c: InfoCodec) {
    forall info :: c.decode(c.encode(info)) == Some(info)
  }

  function DownloadFrames(id: u32, info: seq<byte>, data: seq<byte>): seq<Frame> {
    if data == [] then [Frame(id, DAT_FIN, info)]
    else [Frame(id, DAT_MORE, info)] + Segments(id, data)
  }

  /** The chunks of `data`, as `slice::chunks` cuts them. */
  function Chunks(data: seq<byte>): seq<seq<byte>>
    decreases |data|
  {
    if |data| == 0 then [] else if |data| <= MAX then [data] else [data[..MAX]] + Chunks(data[MAX..])
  }

  /** The first chunk is the first segment, final when no chunk follows. */
  lemma ChunkIsSegment(id: u32, data: seq<byte>)
    requires data != []
    ensures var chunks, rest := Chunks(data), if |data| <= MAX then [] else data[MAX..];
      && chunks != [] && chunks[1..] == Chunks(rest) && (rest == [] <==> |chunks| == 1)
      && Segments(id, data) ==
           [Frame(id, if |chunks| == 1 then DAT_FIN else DAT_MORE, chunks[0])]
             + if rest == [] then [] else Segments(id, rest)
  {
  }

  /** The server's response loop, which marks the last chunk by its index. */
  method EncodeDownload(id: u32, info: seq<byte>, data: seq<byte>) returns (r: Result<seq<Frame>, FileError>)
    ensures r == if id == 0 then Err(ControlStream) else Ok(DownloadFrames(id, info, data))
  {
    if id == 0 { return Err(ControlStream); }
    var frames := [Frame(id, if data == [] then DAT_FIN else DAT_MORE, info)];
    if data != [] {
      var chunks := Chunks(data);
      var index := 0;
      ghost var rest := data;
      while index < |chunks|
        invariant 0 <= index <= |chunks|
        invariant chunks[index..] == Chunks(rest)
        invariant frames + (if rest == [] then [] else Segments(id, rest)) == DownloadFrames(id, info, data)
      {
        hide Segments, DownloadFrames;
        assert rest != [];
        ChunkIsSegment(id, rest);
        hide Chunks;
        var last := index + 1 == |chunks|;
        assert chunks[index] == Chunks(rest)[0] && |Chunks(rest)| == |chunks| - index;
        assert chunks[index + 1..] == Chunks(rest)[1..];
        frames := frames + [Frame(id, if last then DAT_FIN else DAT_MORE, chunks[index])];
        rest := if |rest| <= MAX then [] else rest[MAX..];
        index := index + 1;
      }
      assert rest == [];
      assert frames + [] == frames;
    }
    r := Ok(frames);
  }

  /** Every frame of a response is on its stream, MORE marks all but the last, and the payloads are in order. */
  lemma DownloadShape(id: u32, info: seq<byte>, data: seq<byte>)
    ensures var frames := DownloadFrames(id, info, data);
      && |frames| >= 1 && frames[0].payload == info && Payloads(frames[1..]) == data
      && forall i :: 0 <= i < |frames| ==>
           && frames[i].streamId == id && IsDat(frames[i].flags) && !IsSyn(frames[i].flags)
           && (IsFin(frames[i].flags) <==> i == |frames| - 1) && (IsMore(frames[i].flags) <==> i < |frames| - 1)
  {
    var frames := DownloadFrames(id, info, data);
    SegmentsShape(id, data);
    SegmentsMore(id, data);
    if data != [] {
      assert frames[1..] == Segments(id, data);
      hide Segments;
      forall i | 0 < i < |frames| ensures frames[i] == Segments(id, data)[i - 1] {}
    }
  }

  ghost predicate MoreButLast(frames: seq<Frame>) {
    forall i :: 0 <= i < |frames| ==> (IsMore(frames[i].flags) <==> i < |frames| - 1)
  }

  lemma {:induction false} SegmentsMore(id: u32, data: seq<byte>)
    ensures MoreButLast(Segments(id, data))
    decreases |data|
  {
    if |data| > MAX {
      var rest := Segments(id, data[MAX..]);
      SegmentsMore(id, data[MAX..]);
      MoreInFront(Frame(id, DAT_MORE, data[..MAX]), rest);
    }
  }

  lemma MoreInFront(f: Frame, rest: seq<Frame>)
    requires f.flags == DAT_MORE && rest != [] && MoreButLast(rest)
    ensures MoreButLast([f] + rest)
  {
    assert IsMore(DAT_MORE);
    hide IsMore;
  }

  datatype Download = Download(info: FileInfo, data: seq<byte>)

  /** What the client's receive loop returns from frame `i` on. */
  function ReceiveFrom(frames: seq<Frame>, i: nat, info: Option<FileInfo>, data: seq<byte>, c: InfoCodec)
    : Result<Download, FileError>
    requires i <= |frames|
    decreases |frames| - i
  {
    if i == |frames| then Err(ChannelClosed)
    else
      var f := frames[i];
      if f.streamId == 0 && !IsFin(f.flags) then Err(UnexpectedControl)
      else if info.None? && !GoodData(f) then Err(NotADataFrame)
      else if info.None? && c.decode(f.payload).None? then Err(BadMetadata)
      else
        var info' := if info.None? then c.decode(f.payload) else info;
        var data' := if info.None? then data else data + f.payload;
        if IsFin(f.flags) then Ok(Download(info'.value, data'))
        else ReceiveFrom(frames, i + 1, info', data', c)
  }

  method ReceiveDownload(frames: seq<Frame>, c: InfoCodec) returns (r: Result<Download, FileError>)
    ensures r == ReceiveFrom(frames, 0, None, [], c)
  {
    var data: seq<byte> := [];
    var info: Option<FileInfo> := None;
    var i := 0;
    while i < |frames|
      invariant 0 <= i <= |frames|
      invariant ReceiveFrom(frames, i, info, data, c) == ReceiveFrom(frames, 0, None, [], c)
    {
      var f := frames[i];
      if f.streamId == 0 && !IsFin(f.flags) { return Err(UnexpectedControl); }
      if info.None? {
        if !GoodData(f) { return Err(NotADataFrame); }
        info := c.decode(f.payload);
        if info.None? { return Err(BadMetadata); }
      } else {
        data := data + f.payload;
      }
      if IsFin(f.flags) { return Ok(Download(info.value, data)); }
      i := i + 1;
    }
    r := Err(ChannelClosed);
  }

  lemma {:induction false} ReceiveSegments(frames: seq<Frame>, i: nat, info: FileInfo, data: seq<byte>, rest: seq<byte>,
                                           id: u32, c: InfoCodec)
    requires id != 0 && i <= |frames| && frames[i..] == Segments(id, rest)
    ensures ReceiveFrom(frames, i, Some(info), data, c) == Ok(Download(info, data + rest))
    decreases |rest|
  {
    var s := Segments(id, rest);
    assert frames[i] == s[0];
    if |rest| > MAX {
      assert frames[i + 1..] == s[1..] == Segments(id, rest[MAX..]);
      ReceiveSegments(frames, i + 1, info, data + rest[..MAX], rest[MAX..], id, c);
      assert data + rest[..MAX] + rest[MAX..] == data + rest;
    }
  }

  /** The client reassembles any response the server segments. */
  lemma DownloadReassembles(id: u32, info: FileInfo, data: seq<byte>, c: InfoCodec)
    requires id != 0 && Faithful(c)
    ensures ReceiveFrom(DownloadFrames(id, c.encode(info), data), 0, None, [], c) == Ok(Download(info, data))
  {
    var frames := DownloadFrames(id, c.encode(info), data);
    assert frames[0].payload == c.encode(info);
    if data != [] {
      assert frames[1..] == Segments(id, data);
      ReceiveSegments(frames, 1, info, [], data, id, c);
      assert [] + data == data;
    }
  }

  /** `k` closes a response: the first FIN, on any stream, after metadata and frames off the control stream. */
  ghost predicate CompleteResponse(frames: seq<Frame>, k: nat, c: InfoCodec) {
    && k < |frames|
    && GoodData(frames[0]) && c.decode(frames[0].payload).Some?
    && IsFin(frames[k].flags)
    && (forall i :: 0 <= i < k ==> !IsFin(frames[i].flags) && frames[i].streamId != 0)
  }

  lemma {:induction false} ReceiveFromSound(frames: seq<Frame>, i: nat, info: FileInfo, c: InfoCodec)
    requires 1 <= i <= |frames| && GoodData(frames[0]) && c.decode(frames[0].payload) == Some(info)
    requires forall j :: 0 <= j < i ==> !IsFin(frames[j].flags) && frames[j].streamId != 0
    ensures var r := ReceiveFrom(frames, i, Some(info), Payloads(frames[1..i]), c);
      r.Ok? ==> exists k :: CompleteResponse(frames, k, c)
    decreases |frames| - i
  {
    if i < |frames| {
      PayloadsSnoc(frames[1..i], frames[i]);
      assert frames[1..i + 1] == frames[1..i] + [frames[i]];
      if IsFin(frames[i].flags) {
        assert CompleteResponse(frames, i, c);
      } else if frames[i].streamId != 0 {
        ReceiveFromSound(frames, i + 1, info, c);
      }
    }
  }

  lemma {:induction false} ReceiveFromComplete(frames: seq<Frame>, i: nat, k: nat, info: FileInfo, c: InfoCodec)
    requires 1 <= i <= k && CompleteResponse(frames, k, c) && c.decode(frames[0].payload) == Some(info)
    ensures ReceiveFrom(frames, i, Some(info), Payloads(frames[1..i]), c) ==
      Ok(Download(info, Payloads(frames[1..k + 1])))
    decreases k - i
  {
    PayloadsSnoc(frames[1..i], frames[i]);
    assert frames[1..i + 1] == frames[1..i] + [frames[i]];
    if i < k {
      ReceiveFromComplete(frames, i + 1, k, info, c);
    }
  }

  lemma ReceiveComplete(frames: seq<Frame>, k: nat, c: InfoCodec)
    requires CompleteResponse(frames, k, c)
    ensures ReceiveFrom(frames, 0, None, [], c) ==
      Ok(Download(c.decode(frames[0].payload).value, Payloads(frames[1..k + 1])))
  {
    assert frames[1..1] == [];
    if k > 0 {
      ReceiveFromComplete(frames, 1, k, c.decode(frames[0].payload).value, c);
    }
  }

  /**
   * The client accepts exactly the frame sequences that start with readable metadata and reach a FIN
   * with no control frame before it, and returns the payloads from the metadata to that FIN.
   */
  lemma ReceivedExactly(frames: seq<Frame>, c: InfoCodec)
    ensures ReceiveFrom(frames, 0, None, [], c).Ok? <==> exists k :: CompleteResponse(frames, k, c)
    ensures forall k :: CompleteResponse(frames, k, c) ==>
      ReceiveFrom(frames, 0, None, [], c) ==
        Ok(Download(c.decode(frames[0].payload).value, Payloads(frames[1..k + 1])))
  {
    forall k | CompleteResponse(frames, k, c)
      ensures ReceiveFrom(frames, 0, None, [], c) ==
        Ok(Download(c.decode(frames[0].payload).value, Payloads(frames[1..k + 1])))
    {
      ReceiveComplete(frames, k, c);
    }
    if ReceiveFrom(frames, 0, None, [], c).Ok? {
      assert frames[1..1] == [];
      if IsFin(frames[0].flags) {
        assert CompleteResponse(frames, 0, c);
      } else {
        ReceiveFromSound(frames, 1, c.decode(frames[0].payload).value, c);
      }
    }
  }

  /** Every frame before `k` lets the download go on, the first with readable metadata. */
  ghost predicate Receiving(frames: seq<Frame>, k: nat, c: InfoCodec) {
    && k <= |frames|
    && (k > 0 ==> GoodData(frames[0]) && c.decode(frames[0].payload).Some?)
    && forall i :: 0 <= i < k ==> !IsFin(frames[i].flags) && frames[i].streamId != 0
  }

  /** What is wrong with the frame at `k`, or with there being none. */
  ghost predicate Breaks(frames: seq<Frame>, k: nat, c: InfoCodec, e: FileError)
    requires k <= |frames|
  {
    if k == |frames| then e == ChannelClosed
    else if frames[k].streamId == 0 && !IsFin(frames[k].flags) then e == UnexpectedControl
    else
      && k == 0
      && if GoodData(frames[0]) then c.decode(frames[0].payload).None? && e == BadMetadata else e == NotADataFrame
  }

  lemma {:induction false} ReceiveFromFails(frames: seq<Frame>, i: nat, info: Option<FileInfo>, data: seq<byte>,
                                            c: InfoCodec, e: FileError)
    requires Receiving(frames, i, c) && (i == 0 <==> info.None?)
    ensures ReceiveFrom(frames, i, info, data, c) == Err(e) <==>
      exists k :: i <= k && Receiving(frames, k, c) && Breaks(frames, k, c, e)
    decreases |frames| - i
  {
    hide IsFin, GoodData;
    if i == |frames| || !Receiving(frames, i + 1, c) {
      assert forall k :: i < k ==> !Receiving(frames, k, c);
    } else {
      var info' := if info.None? then c.decode(frames[i].payload) else info;
      ReceiveFromFails(frames, i + 1, info', if info.None? then data else data + frames[i].payload, c, e);
      assert !Breaks(frames, i, c, e);
    }
  }

  /** A download fails exactly for what is wrong with the first frame that breaks it. */
  lemma ReceiveFailsExactly(frames: seq<Frame>, c: InfoCodec, e: FileError)
    ensures ReceiveFrom(frames, 0, None, [], c) == Err(e) <==>
      exists k :: 0 <= k && Receiving(frames, k, c) && Breaks(frames, k, c, e)
  {
    ReceiveFromFails(frames, 0, None, [], c, e);
  }

  lemma {:induction false} FirstSegments(id: u32, data: seq<byte>, n: nat)
    requires data != [] && n < |Segments(id, data)|
    ensures Payloads(Segments(id, data)[..n]) < data
    decreases |data|
  {
    if n > 0 {
      var frames := Segments(id, data);
      assert frames[..n][1..] == Segments(id, data[MAX..])[..n - 1];
      FirstSegments(id, data[MAX..], n - 1);
      assert data == data[..MAX] + data[MAX..];
    }
  }

  function CutOff(frames: seq<Frame>, n: nat): seq<Frame>
    requires n <= |frames|
  {
    frames[..n] + [Frame(0, FIN, [])]
  }

  lemma CutOffComplete(id: u32, info: FileInfo, data: seq<byte>, n: nat, c: InfoCodec)
    requires id != 0 && Faithful(c) && data != [] && n < |Segments(id, data)|
    ensures CompleteResponse(CutOff(DownloadFrames(id, c.encode(info), data), n + 1), n + 1, c)
  {
    var segments := Segments(id, data);
    var frames := CutOff(DownloadFrames(id, c.encode(info), data), n + 1);
    SegmentsShape(id, data);
    hide Segments, Payloads;
    assert frames[0] == Frame(id, DAT_MORE, c.encode(info)) && frames[n + 1] == Frame(0, FIN, []);
    forall i | 0 < i <= n ensures frames[i] == segments[i - 1] {}
  }

  /**
   * The end of the session in mid-download is taken for the end of the file: a proper part is
   * returned as complete.
   */
  lemma TruncatedDownload(id: u32, info: FileInfo, data: seq<byte>, n: nat, c: InfoCodec)
    requires id != 0 && Faithful(c) && data != [] && n < |Segments(id, data)|
    ensures var frames := CutOff(DownloadFrames(id, c.encode(info), data), n + 1);
      var part := Payloads(Segments(id, data)[..n]);
      ReceiveFrom(frames, 0, None, [], c) == Ok(Download(info, part)) && part < data
  {
    var segments, part := Segments(id, data), Payloads(Segments(id, data)[..n]);
    var frames := CutOff(DownloadFrames(id, c.encode(info), data), n + 1);
    FirstSegments(id, data, n);
    CutOffComplete(id, info, data, n, c);
    ReceiveComplete(frames, n + 1, c);
    hide ReceiveFrom, Segments, CompleteResponse;
    var sent := DownloadFrames(id, c.encode(info), data);
    assert frames[0] == sent[0] && sent[1..] == segments && sent[1..n + 1] == segments[..n];
    assert frames[1..n + 2] == segments[..n] + [Frame(0, FIN, [])];
    PayloadsSnoc(segments[..n], Frame(0, FIN, []));
    assert part + [] == part;
  }

  /** The response crosses the channel exactly when its metadata fits one frame. */
  lemma DownloadFramesFit(id: u32, info: seq<byte>, data: seq<byte>)
    ensures AllEncodable(DownloadFrames(id, info, data), MAX) <==> |info| <= MAX
  {
    var frames := DownloadFrames(id, info, data);
    assert frames[0].payload == info;
    SegmentsShape(id, data);
    if data != [] && |info| <= MAX {
      forall i | 0 <= i < |frames| ensures |frames[i].payload| <= MAX {
        if i > 0 { assert frames[i] == Segments(id, data)[i - 1]; }
      }
    }
  }

  // ---- PUT then GET --------------------------------------------------------

  type Files = map<string, seq<byte>>

  /** The selection in `download`, after the whole file has been read. */
  function Select(data: seq<byte>, range: Option<Range>): Result<seq<byte>, FileError> {
    var size := |data|;
    var start := if range.Some? then range.value.start else 0;
    var end := if range.Some? then range.value.end else if size > 0 then size - 1 else 0;
    if size == 0 then if range.Some? then Err(RangeOnEmptyFile) else Ok([])
    else if start > end || end >= size then Err(RangeOutOfBounds)
    else Ok(data[start..end + 1])
  }

  function ExecuteUpload(files: Files, r: Request, body: seq<byte>, maximum: nat): Result<Files, FileError> {
    if r.size > maximum then Err(TooLarge)
    else if r.size != |body| then Err(SizeMismatch)
    else if r.path in files && !r.overwrite then Err(AlreadyExists)
    else Ok(files[r.path := body])
  }

  function ExecuteDownload(files: Files, r: Request, maximum: nat): Result<seq<byte>, FileError> {
    if r.path !in files then Err(NotFound)
    else if |files[r.path]| > maximum then Err(TooLarge)
    else Select(files[r.path], r.range)
  }

  /** A PUT as the client and the dispatcher carry it out. */
  function RunPut(files: Files, id: u32, path: string, data: seq<byte>, overwrite: bool, maximum: nat)
    : Result<Files, FileError>
    requires |data| <= I64_MAX
  {
    var sent := Request(Put, path, |data|, overwrite, None);
    if ShapeError(sent).Some? then Err(ShapeError(sent).value)
    else
      var request := FromWire(ToWire(sent));
      if request.Err? then Err(request.error)
      else
        var body := DeliverAll(Segments(id, data));
        if body.Err? then Err(body.error)
        else
          var collected := Collected(body.value, request.value.size, maximum, |body.value|);
          if collected.Err? then Err(collected.error)
          else ExecuteUpload(files, request.value, collected.value, maximum)
  }

  /** A GET as the dispatcher and the client carry it out. */
  function RunGet(files: Files, id: u32, path: string, range: Option<Range>, info: FileInfo, c: InfoCodec, maximum: nat)
    : Result<Download, FileError>
  {
    var sent := Request(Get, path, 0, false, range);
    if ShapeError(sent).Some? then Err(ShapeError(sent).value)
    else
      var request := FromWire(ToWire(sent));
      if request.Err? then Err(request.error)
      else
        var selected := ExecuteDownload(files, request.value, maximum);
        if selected.Err? then Err(selected.error)
        else
          var frames := DeliverAll(DownloadFrames(id, c.encode(info), selected.value));
          if frames.Err? then Err(frames.error) else ReceiveFrom(frames.value, 0, None, [], c)
  }

  /** An upload of any body is stored exactly when it has the announced size within the limit and may be written. */
  lemma UploadExactly(files: Files, r: Request, body: seq<byte>, maximum: nat)
    ensures var done := ExecuteUpload(files, r, body, maximum);
      && (done.Ok? <==> r.size == |body| <= maximum && (r.path in files ==> r.overwrite))
      && (done.Ok? ==> done.value == files[r.path := body])
      && (done == Err(TooLarge) <==> r.size > maximum)
      && (done == Err(SizeMismatch) <==> r.size <= maximum && r.size != |body|)
      && (done == Err(AlreadyExists) <==> r.size == |body| <= maximum && r.path in files && !r.overwrite)
  {
  }

  /** A PUT within the limit stores exactly its bytes under its path, and touches nothing else. */
  lemma PutStores(files: Files, id: u32, path: string, data: seq<byte>, overwrite: bool, maximum: nat)
    requires id != 0 && |data| <= I64_MAX
    ensures RunPut(files, id, path, data, overwrite, maximum).Ok? <==>
      !Blank(path) && |data| <= maximum && (path in files ==> overwrite)
    ensures var r := RunPut(files, id, path, data, overwrite, maximum);
      r.Ok? ==> r.value == files[path := data]
  {
    var sent := Request(Put, path, |data|, overwrite, None);
    RequestRoundTrip(sent);
    SegmentsShape(id, data);
    DeliverAllFits(Segments(id, data));
    if |data| <= maximum {
      UploadEndToEnd(id, data, maximum, |Segments(id, data)|);
    }
  }

  /** The range, if there is one, lies in a file of this size. */
  predicate Within(range: Option<Range>, size: nat) {
    range.Some? ==> range.value.start <= range.value.end < size
  }

  function Slice(data: seq<byte>, range: Option<Range>): seq<byte>
    requires Within(range, |data|)
  {
    if range.None? then data else data[range.value.start..range.value.end + 1]
  }

  lemma SelectExactly(data: seq<byte>, range: Option<Range>)
    ensures Select(data, range).Ok? <==> Within(range, |data|)
    ensures Within(range, |data|) ==> Select(data, range) == Ok(Slice(data, range))
    ensures Select(data, range) == Err(RangeOnEmptyFile) <==> data == [] && range.Some?
    ensures Select(data, range) == Err(RangeOutOfBounds) <==> data != [] && !Within(range, |data|)
  {
    assert data[0..|data|] == data;
  }

  /** The request reaches the server: a path, and a range that is in order and fits the wire. */
  predicate Asks(path: string, range: Option<Range>) {
    !Blank(path) && (range.Some? ==> range.value.start <= range.value.end <= I64_MAX)
  }

  /**
   * Over any store, a GET through all layers succeeds exactly when its path is not blank, the file
   * exists within the limit and the range, if any, lies in it; it then delivers exactly those bytes.
   */
  lemma GetExactly(files: Files, id: u32, path: string, range: Option<Range>, info: FileInfo, c: InfoCodec,
                   maximum: nat)
    requires id != 0 && Faithful(c) && |c.encode(info)| <= MAX && (path in files ==> |files[path]| <= I64_MAX)
    ensures RunGet(files, id, path, range, info, c, maximum).Ok? <==>
      !Blank(path) && path in files && |files[path]| <= maximum && Within(range, |files[path]|)
    ensures var got := RunGet(files, id, path, range, info, c, maximum);
      got.Ok? ==> got.value == Download(info, Slice(files[path], range))
    ensures var got := RunGet(files, id, path, range, info, c, maximum);
      && (got == Err(EmptyPath) <==> Blank(path))
      && (got == Err(NotFound) <==> Asks(path, range) && path !in files)
      && (got == Err(TooLarge) <==> Asks(path, range) && path in files && |files[path]| > maximum)
  {
    var sent := Request(Get, path, 0, false, range);
    RequestRoundTrip(sent);
    if path in files {
      SelectExactly(files[path], range);
      if !Blank(path) && |files[path]| <= maximum && Within(range, |files[path]|) {
        GetDelivers(files, id, sent, Slice(files[path], range), info, c, maximum);
      }
    }
    hide ReceiveFrom, DownloadFrames;
  }

  /**
   * After a successful PUT, a GET of an inclusive range delivers exactly those bytes, and succeeds
   * exactly when the range lies in the file; without a range it delivers the whole file.
   */
  lemma PutThenGet(files: Files, id: u32, id': u32, path: string, data: seq<byte>, overwrite: bool,
                   range: Option<Range>, info: FileInfo, c: InfoCodec, maximum: nat)
    requires id != 0 && id' != 0 && |data| <= I64_MAX
    requires Faithful(c) && |c.encode(info)| <= MAX
    requires RunPut(files, id, path, data, overwrite, maximum).Ok?
    ensures var stored := RunPut(files, id, path, data, overwrite, maximum).value;
      var got := RunGet(stored, id', path, range, info, c, maximum);
      && (got.Ok? <==> Within(range, |data|))
      && (got.Ok? ==> got.value == Download(info, Slice(data, range)))
  {
    PutStores(files, id, path, data, overwrite, maximum);
    GetExactly(files[path := data], id', path, range, info, c, maximum);
    hide RunPut, RunGet;
  }

  lemma GetDelivers(files: Files, id: u32, sent: Request, selected: seq<byte>, info: FileInfo, c: InfoCodec,
                    maximum: nat)
    requires id != 0 && Faithful(c) && |c.encode(info)| <= MAX
    requires sent.operation == Get && sent.size == 0 && !sent.overwrite
    requires ShapeError(sent).None? && Representable(sent)
    requires ExecuteDownload(files, sent, maximum) == Ok(selected)
    ensures RunGet(files, id, sent.path, sent.range, info, c, maximum) == Ok(Download(info, selected))
  {
    RequestRoundTrip(sent);
    DownloadFramesFit(id, c.encode(info), selected);
    DeliverAllFits(DownloadFrames(id, c.encode(info), selected));
    DownloadReassembles(id, info, selected, c);
  }
}
