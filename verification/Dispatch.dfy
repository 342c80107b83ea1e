/** Stream openings and closings over the wire: the client's operations and the server's dispatcher. */
module Dispatch {
  import opened Common
  import opened Registry
  import F = FileTransfer
  import Swsp

  // ---- Openings on the wire ------------------------------------------------

  /** A vector of bytes is never longer than a signed word. */
  type Upload = data: seq<byte> | |data| <= I64_MAX

  /** What the client asks for when it opens a stream: a command, a download or an upload. */
  datatype Opening =
    | ShellOpening(program: string, args: seq<string>, cwd: string)
    | GetOpening(path: string)
    | PutOpening(path: string, data: Upload, overwrite: bool)

  /** `stream.ShellOpen`. */
  datatype ShellMessage = ShellMessage(discriminator: string, program: string, args: seq<string>, cwd: string)

  /** The message encodings, which the model takes as given. */
  datatype Codec = Codec(
    encodeShell: ShellMessage -> seq<byte>,
    decodeShell: seq<byte> -> Option<ShellMessage>,
    encodeFile: F.WireFileOp -> seq<byte>,
    decodeFile: seq<byte> -> Option<F.WireFileOp>)

  /**
   * What protobuf guarantees: messages read back, both kinds keep their discriminator in the same
   * field, and a text takes at least its own length.
   */
  ghost predicate Faithful(c: Codec) {
    && (forall m :: c.decodeShell(c.encodeShell(m)) == Some(m))
    && (forall m :: c.decodeFile(c.encodeFile(m)) == Some(m))
    && (forall m :: var r := c.decodeShell(c.encodeFile(m)); r.Some? ==> r.value.discriminator == m.discriminator)
    && (forall m :: var r := c.decodeFile(c.encodeShell(m)); r.Some? ==> r.value.discriminator == m.discriminator)
    && (forall m :: |c.encodeShell(m)| >= |m.program|)
  }

  function RequestOf(o: Opening): F.Request
    requires !o.ShellOpening?
  {
    if o.GetOpening? then F.Request(F.Get, o.path, 0, false, None)
    else F.Request(F.Put, o.path, |o.data|, o.overwrite, None)
  }

  function Payload(c: Codec, o: Opening): seq<byte> {
    if o.ShellOpening? then c.encodeShell(ShellMessage("shell", o.program, o.args, o.cwd))
    else c.encodeFile(F.ToWire(RequestOf(o)))
  }

  /** The client checks the shape of file requests only, and the channel the size of every frame. */
  predicate Sent(c: Codec, o: Opening) {
    && (o.ShellOpening? || F.ShapeError(RequestOf(o)).None?)
    && Swsp.LengthError(|Payload(c, o)|, F.MAX).None?
  }

  /** What the payload of an opening frame asks for, as the server reads it. */
  datatype Opener = ShellStart | FileStart(put: bool)

  /** A shell message is tried first, then a file request. */
  function DecodeOpener(c: Codec, payload: seq<byte>): Option<Opener> {
    var shell := c.decodeShell(payload);
    if shell.Some? && shell.value.discriminator == "shell" && !Blank(shell.value.program) then Some(ShellStart)
    else
      var file := c.decodeFile(payload);
      if file.None? || F.FromWire(file.value).Err? then None
      else Some(FileStart(F.FromWire(file.value).value.operation == F.Put))
  }

  function KindOf(o: Opening): StreamKind { if o.ShellOpening? then Shell else File }

  ghost predicate BlankProgram(o: Opening) { o.ShellOpening? && Blank(o.program) }

  /** An opening is not sent exactly when it names a blank path or does not fit one frame. */
  lemma SentExactly(c: Codec, o: Opening)
    ensures Sent(c, o) <==> (o.ShellOpening? || !Blank(o.path)) && |Payload(c, o)| <= F.MAX
  {
  }

  /** The server reads every opening that was sent as what was meant, except for a blank program. */
  lemma OpenerDecodes(c: Codec, o: Opening)
    requires Faithful(c) && Sent(c, o)
    ensures DecodeOpener(c, Payload(c, o)) ==
      if BlankProgram(o) then None
      else if o.ShellOpening? then Some(ShellStart)
      else Some(FileStart(o.PutOpening?))
  {
    if o.ShellOpening? {
      var m := ShellMessage("shell", o.program, o.args, o.cwd);
      assert c.decodeShell(c.encodeShell(m)) == Some(m);
      var file := c.decodeFile(c.encodeShell(m));
      assert file.Some? ==> file.value.discriminator == "shell" && F.FromWire(file.value).Err?;
    } else {
      var r := RequestOf(o);
      F.RequestRoundTrip(r);
      assert c.decodeFile(c.encodeFile(F.ToWire(r))) == Some(F.ToWire(r));
      var shell := c.decodeShell(c.encodeFile(F.ToWire(r)));
      assert shell.Some? ==> shell.value.discriminator == "file";
    }
  }

  // ---- The dispatcher ------------------------------------------------------

  /** A frame as the dispatcher sees it: its stream, its flags and its payload. */
  datatype WireFrame = WireFrame(id: u32, syn: bool, dat: bool, fin: bool, payload: seq<byte>)

  /** A frame, and whether the handler it sets to work, if any, succeeds. */
  datatype Arrival = Arrival(frame: WireFrame, handled: bool)

  const ROOT := "/"

  /** Either at the top of the loop or reading the body of a PUT on one stream. */
  datatype Mode = Top | Reading(id: u32)

  datatype Dispatcher = Dispatcher(reg: Reg, mode: Mode)

  datatype Fault =
    | UnexpectedControl | FinForUnknownStream | MustStartWithSynDat | UnknownOpener
    | AcceptRefused(cause: RegistryError) | FrameForOtherStream | HandlerFailed

  datatype Dispatched = Going(next: Dispatcher) | Ended(last: Reg) | Faulted(reg: Reg, fault: Fault)

  function StartKind(o: Opener): StreamKind { if o.ShellStart? then Shell else File }

  /** A command or a request without body is handled as soon as its stream is accepted. */
  function DispatchTop(c: Codec, reg: Reg, f: WireFrame, handled: bool): Dispatched {
    if f.id == 0 then if f.fin then Ended(reg) else Faulted(reg, UnexpectedControl)
    else if f.fin then
      if f.id in reg.active then Going(Dispatcher(Close(reg, f.id).reg, Top)) else Faulted(reg, FinForUnknownStream)
    else if !f.syn || !f.dat then Faulted(reg, MustStartWithSynDat)
    else
      var opener := DecodeOpener(c, f.payload);
      if opener.None? then Faulted(reg, UnknownOpener)
      else
        var o := Accept(reg, f.id, StartKind(opener.value), ROOT);
        if o.result.Err? then Faulted(o.reg, AcceptRefused(o.result.error))
        else if opener.value == FileStart(true) then Going(Dispatcher(o.reg, Reading(f.id)))
        else if !handled then Faulted(o.reg, HandlerFailed)
        else Going(Dispatcher(o.reg, Top))
  }

  /** An upload is handled when its last frame is in. */
  function DispatchBody(reg: Reg, id: u32, f: WireFrame, handled: bool): Dispatched {
    if f.id == 0 && !f.fin then Faulted(reg, UnexpectedControl)
    else if f.id != id then Faulted(reg, FrameForOtherStream)
    else if !f.fin then Going(Dispatcher(reg, Reading(id)))
    else if !handled then Faulted(reg, HandlerFailed)
    else Going(Dispatcher(reg, Top))
  }

  function DispatchOne(c: Codec, d: Dispatcher, a: Arrival): Dispatched {
    match d.mode
    case Top => DispatchTop(c, d.reg, a.frame, a.handled)
    case Reading(id) => DispatchBody(d.reg, id, a.frame, a.handled)
  }

  function Serve(c: Codec, d: Dispatcher, arrivals: seq<Arrival>): Dispatched
    decreases |arrivals|
  {
    if arrivals == [] then Going(d)
    else
      var r := DispatchOne(c, d, arrivals[0]);
      if r.Going? then Serve(c, r.next, arrivals[1..]) else r
  }

  /** The dispatcher loop, with the inner loop that reads a PUT body frame by frame. */
  method ServeSession(c: Codec, registry: StreamRegistry, arrivals: seq<Arrival>)
      returns (mode: Mode, ended: bool, fault: Option<Fault>)
    modifies registry
    ensures Serve(c, Dispatcher(old(registry.View()), Top), arrivals) ==
      if fault.Some? then Faulted(registry.View(), fault.value)
      else if ended then Ended(registry.View())
      else Going(Dispatcher(registry.View(), mode))
  {
    mode, ended, fault := Top, false, None;
    var i := 0;
    while i < |arrivals|
      invariant 0 <= i <= |arrivals| && mode == Top && !ended && fault.None?
      invariant Serve(c, Dispatcher(old(registry.View()), Top), arrivals) ==
                Serve(c, Dispatcher(registry.View(), Top), arrivals[i..])
    {
      hide Serve, DecodeOpener;
      var f := arrivals[i].frame;
      var handled := arrivals[i].handled;
      ServeHead(c, Dispatcher(registry.View(), Top), arrivals, i);
      i := i + 1;
      if f.id == 0 {
        ended := f.fin;
        fault := if f.fin then None else Some(UnexpectedControl);
        return;
      }
      if f.fin {
        var closed := registry.CloseStream(f.id);
        if closed.Err? {
          fault := Some(FinForUnknownStream);
          return;
        }
        continue;
      }
      if !f.syn || !f.dat {
        fault := Some(MustStartWithSynDat);
        return;
      }
      var opener := DecodeOpener(c, f.payload);
      if opener.None? {
        fault := Some(UnknownOpener);
        return;
      }
      var accepted := registry.AcceptStream(f.id, StartKind(opener.value), ROOT);
      if accepted.Err? {
        fault := Some(AcceptRefused(accepted.error));
        return;
      }
      if opener.value == FileStart(true) {
        mode := Reading(f.id);
        while i < |arrivals| && mode != Top
          invariant 0 <= i <= |arrivals| && !ended && fault.None?
          invariant mode == Top || mode == Reading(f.id)
          invariant Serve(c, Dispatcher(old(registry.View()), Top), arrivals) ==
                    Serve(c, Dispatcher(registry.View(), mode), arrivals[i..])
          decreases |arrivals| - i
        {
          ServeHead(c, Dispatcher(registry.View(), mode), arrivals, i);
          var body := arrivals[i].frame;
          handled := arrivals[i].handled;
          i := i + 1;
          if body.id != f.id {
            fault := Some(if body.id == 0 && !body.fin then UnexpectedControl else FrameForOtherStream);
            return;
          }
          if body.fin {
            if !handled {
              fault := Some(HandlerFailed);
              return;
            }
            mode := Top;
          }
        }
        if mode != Top {
          ServeNothing(c, Dispatcher(registry.View(), mode), arrivals);
          return;
        }
      } else if !handled {
        fault := Some(HandlerFailed);
        return;
      }
    }
    ServeNothing(c, Dispatcher(registry.View(), Top), arrivals);
  }

  lemma ServeHead(c: Codec, d: Dispatcher, arrivals: seq<Arrival>, i: nat)
    requires i < |arrivals|
    ensures var r := DispatchOne(c, d, arrivals[i]);
      Serve(c, d, arrivals[i..]) == if r.Going? then Serve(c, r.next, arrivals[i + 1..]) else r
  {
    hide DispatchOne;
    assert arrivals[i..][0] == arrivals[i] && arrivals[i..][1..] == arrivals[i + 1..];
  }

  lemma ServeNothing(c: Codec, d: Dispatcher, arrivals: seq<Arrival>)
    ensures Serve(c, d, arrivals[|arrivals|..]) == Going(d)
  {
  }

  lemma {:induction false} ServeSnoc(c: Codec, d: Dispatcher, arrivals: seq<Arrival>, a: Arrival)
    ensures var r := Serve(c, d, arrivals);
      Serve(c, d, arrivals + [a]) == if r.Going? then DispatchOne(c, r.next, a) else r
    decreases |arrivals|
  {
    hide DispatchOne;
    if arrivals == [] {
      assert [a][1..] == [];
      assert arrivals + [a] == [a];
    } else {
      assert (arrivals + [a])[1..] == arrivals[1..] + [a];
      var r := DispatchOne(c, d, arrivals[0]);
      if r.Going? {
        ServeSnoc(c, r.next, arrivals[1..], a);
      }
    }
  }

  // ---- How a session stops, whoever sends the frames -----------------------

  /** The frame at `k` is reached, with the dispatcher still going. */
  ghost predicate Reached(c: Codec, d: Dispatcher, arrivals: seq<Arrival>, k: nat) {
    k < |arrivals| && Serve(c, d, arrivals[..k]).Going?
  }

  ghost function StateAt(c: Codec, d: Dispatcher, arrivals: seq<Arrival>, k: nat): Dispatcher
    requires Reached(c, d, arrivals, k)
  {
    Serve(c, d, arrivals[..k]).next
  }

  /** A FIN on the control stream, between two streams' frames. */
  ghost predicate Ends(d: Dispatcher, a: Arrival) {
    d.mode == Top && a.frame.id == 0 && a.frame.fin
  }

  /** The frame would start a stream, as far as its flags go. */
  ghost predicate Starts(d: Dispatcher, f: WireFrame) {
    d.mode == Top && f.id != 0 && !f.fin && f.syn && f.dat
  }

  ghost predicate ReadsAsShell(c: Codec, payload: seq<byte>) {
    exists m: ShellMessage :: c.decodeShell(payload) == Some(m) && m.discriminator == "shell" && !Blank(m.program)
  }

  ghost predicate ReadsAsFile(c: Codec, payload: seq<byte>, r: F.Request) {
    exists m: F.WireFileOp :: c.decodeFile(payload) == Some(m) && F.FromWire(m) == Ok(r)
  }

  ghost predicate ReadsAsUpload(c: Codec, payload: seq<byte>) {
    !ReadsAsShell(c, payload) && exists r: F.Request :: ReadsAsFile(c, payload, r) && r.operation == F.Put
  }

  ghost predicate Readable(c: Codec, payload: seq<byte>) {
    ReadsAsShell(c, payload) || exists r: F.Request :: ReadsAsFile(c, payload, r)
  }

  /** What each fault is about. */
  ghost predicate Causes(c: Codec, d: Dispatcher, a: Arrival, fault: Fault) {
    var f := a.frame;
    match fault
    case UnexpectedControl => f.id == 0 && !f.fin
    case FinForUnknownStream => d.mode == Top && f.id != 0 && f.fin && f.id !in d.reg.active
    case MustStartWithSynDat => d.mode == Top && f.id != 0 && !f.fin && !(f.syn && f.dat)
    case UnknownOpener => Starts(d, f) && !Readable(c, f.payload)
    case AcceptRefused(cause) =>
      Starts(d, f) && Readable(c, f.payload) && f.id in d.reg.active && cause == AlreadyActive
    case FrameForOtherStream => d.mode.Reading? && f.id != d.mode.id && (f.id == 0 ==> f.fin)
    case HandlerFailed =>
      && !a.handled
      && if d.mode == Top
         then Starts(d, f) && Readable(c, f.payload) && !ReadsAsUpload(c, f.payload) && f.id !in d.reg.active
         else f.id == d.mode.id && f.fin
  }

  lemma DecodesExactly(c: Codec, payload: seq<byte>)
    ensures DecodeOpener(c, payload).Some? <==> Readable(c, payload)
    ensures DecodeOpener(c, payload) == Some(ShellStart) <==> ReadsAsShell(c, payload)
    ensures DecodeOpener(c, payload) == Some(FileStart(true)) <==> ReadsAsUpload(c, payload)
  {
    hide F.FromWire, Blank;
    var shell, file := c.decodeShell(payload), c.decodeFile(payload);
    if shell.Some? && shell.value.discriminator == "shell" && !Blank(shell.value.program) {
      assert ReadsAsShell(c, payload);
    } else if file.Some? && F.FromWire(file.value).Ok? {
      assert ReadsAsFile(c, payload, F.FromWire(file.value).value);
    }
  }

  /** One frame ends the session or faults exactly for the reasons given. */
  lemma StopsExactly(c: Codec, d: Dispatcher, a: Arrival, fault: Fault)
    ensures DispatchOne(c, d, a).Ended? <==> Ends(d, a)
    ensures DispatchOne(c, d, a).Faulted? && DispatchOne(c, d, a).fault == fault <==> Causes(c, d, a, fault)
  {
    DecodesExactly(c, a.frame.payload);
    assert ROOT[0] == '/';
    hide DecodeOpener, ReadsAsShell, ReadsAsUpload, Readable;
  }

  /** Serving stops at a frame that is reached, as that frame makes it stop. */
  lemma {:induction false} ServeStops(c: Codec, d: Dispatcher, arrivals: seq<Arrival>, k: nat)
    requires Reached(c, d, arrivals, k) && !DispatchOne(c, StateAt(c, d, arrivals, k), arrivals[k]).Going?
    ensures Serve(c, d, arrivals) == DispatchOne(c, StateAt(c, d, arrivals, k), arrivals[k])
  {
    hide DispatchOne;
    var n := |arrivals| - 1;
    assert arrivals[..n] + [arrivals[n]] == arrivals;
    ServeSnoc(c, d, arrivals[..n], arrivals[n]);
    if k < n {
      assert arrivals[..n][..k] == arrivals[..k];
      ServeStops(c, d, arrivals[..n], k);
    }
  }

  lemma {:induction false} StopReached(c: Codec, d: Dispatcher, arrivals: seq<Arrival>) returns (k: nat)
    requires !Serve(c, d, arrivals).Going?
    ensures Reached(c, d, arrivals, k)
    ensures Serve(c, d, arrivals) == DispatchOne(c, StateAt(c, d, arrivals, k), arrivals[k])
  {
    hide DispatchOne;
    var n := |arrivals| - 1;
    assert arrivals[..n] + [arrivals[n]] == arrivals;
    ServeSnoc(c, d, arrivals[..n], arrivals[n]);
    if Serve(c, d, arrivals[..n]).Going? {
      k := n;
    } else {
      k := StopReached(c, d, arrivals[..n]);
      assert arrivals[..n][..k] == arrivals[..k];
    }
  }

  /**
   * Whatever frames arrive, the session ends in order exactly at a control FIN reached between two
   * streams, and with a fault exactly at a frame reached that causes it.
   */
  lemma ServeExactly(c: Codec, d: Dispatcher, arrivals: seq<Arrival>, fault: Fault)
    ensures var r := Serve(c, d, arrivals);
      && (r.Ended? <==>
            exists k: nat :: Reached(c, d, arrivals, k) && Ends(StateAt(c, d, arrivals, k), arrivals[k]))
      && (r.Faulted? && r.fault == fault <==>
            exists k: nat ::
              Reached(c, d, arrivals, k) && Causes(c, StateAt(c, d, arrivals, k), arrivals[k], fault))
  {
    hide Serve, DispatchOne, Ends, Causes;
    forall k: nat | Reached(c, d, arrivals, k)
      ensures var s := StateAt(c, d, arrivals, k);
        (Ends(s, arrivals[k]) ==> Serve(c, d, arrivals).Ended?)
        && (Causes(c, s, arrivals[k], fault) ==> Serve(c, d, arrivals).Faulted? && Serve(c, d, arrivals).fault == fault)
    {
      var s := StateAt(c, d, arrivals, k);
      StopsExactly(c, s, arrivals[k], fault);
      if !DispatchOne(c, s, arrivals[k]).Going? {
        ServeStops(c, d, arrivals, k);
      }
    }
    if !Serve(c, d, arrivals).Going? {
      var k := StopReached(c, d, arrivals);
      StopsExactly(c, StateAt(c, d, arrivals, k), arrivals[k], fault);
    }
  }

  // ---- The client ----------------------------------------------------------

  /** A frame the client sends, by its meaning. */
  datatype Message =
    | Opened(id: u32, opening: Opening)
    | Chunk(id: u32, last: bool, bytes: seq<byte>)
    | Closing(id: u32)
    | Ending

  /** What a frame of the codec looks like to the dispatcher. */
  function Seen(f: Swsp.Frame): WireFrame {
    WireFrame(f.streamId, Swsp.IsSyn(f.flags), Swsp.IsDat(f.flags), Swsp.IsFin(f.flags), f.payload)
  }

  const SYN_DAT: Swsp.FrameFlags := 9

  /** The frame the client builds for it. */
  function Built(c: Codec, m: Message): Swsp.Frame {
    match m
    case Opened(id, opening) => Swsp.Frame(id, SYN_DAT, Payload(c, opening))
    case Chunk(id, last, bytes) => Swsp.Frame(id, if last then Swsp.DAT_FIN else Swsp.DAT_MORE, bytes)
    case Closing(id) => Swsp.Frame(id, Swsp.FIN, [])
    case Ending => Swsp.Frame(0, Swsp.FIN, [])
  }

  function FrameOf(c: Codec, m: Message): WireFrame { Seen(Built(c, m)) }

  /** The chunk a segment of an upload is. */
  function ChunkOf(f: Swsp.Frame): Message { Chunk(f.streamId, Swsp.IsFin(f.flags), f.payload) }

  /** Openings carry SYN and DAT and no more, chunks DAT with MORE or FIN, closings FIN alone. */
  lemma BuiltFlags(c: Codec, m: Message)
    ensures var f := Built(c, m).flags;
      && (Swsp.IsSyn(f) <==> m.Opened?) && (Swsp.IsDat(f) <==> m.Opened? || m.Chunk?)
      && (Swsp.IsFin(f) <==> m.Closing? || m.Ending? || (m.Chunk? && m.last))
      && (Swsp.IsMore(f) <==> m.Chunk? && !m.last)
  {
  }

  /** The frames of an upload are the segments of its data, bit for bit. */
  lemma {:induction false} ChunksAreSegments(c: Codec, id: u32, data: seq<byte>, i: nat)
    requires i < |F.Segments(id, data)|
    ensures Built(c, ChunkOf(F.Segments(id, data)[i])) == F.Segments(id, data)[i]
    decreases |data|
  {
    if |data| > F.MAX && i > 0 {
      ChunksAreSegments(c, id, data[F.MAX..], i - 1);
      assert F.Segments(id, data)[i] == F.Segments(id, data[F.MAX..])[i - 1];
    }
  }

  /**
   * Both registries, the frames in flight to the server, and the client's progress in an upload.
   * `leaked` holds the streams whose opening was never sent, `ended` whether the client has closed
   * its session, and `fault` what made the server give up.
   */
  datatype Link = Link(
    client: Reg,
    uploading: Option<u32>,
    pending: seq<Swsp.Frame>,
    leaked: set<u32>,
    server: Dispatcher,
    toServer: seq<Message>,
    ended: bool,
    closed: bool,
    fault: Option<Fault>)

  const LINK_START := Link(NEW, None, [], {}, Dispatcher(NEW, Top), [], false, false, None)

  /**
   * A step of the client's shell and file operations, of the dispatcher, the client's orderly end of
   * the session between two operations, or the loss of the connection.
   */
  datatype Action =
    | OpenStream(opening: Opening)
    | SendChunk
    | CloseStream(id: u32)
    | Deliver(handled: bool)
    | EndSession
    | Disconnect

  /** An opening takes an id first; only then is its message checked, encoded and sent. */
  function ClientOpen(c: Codec, l: Link, opening: Opening): Link {
    var o := Open(l.client, KindOf(opening), ROOT);
    if o.result.Err? then l.(client := o.reg)
    else
      var id := o.result.value.id;
      if !Sent(c, opening) then l.(client := o.reg, leaked := l.leaked + {id})
      else
        l.(client := o.reg, toServer := l.toServer + [Opened(id, opening)],
           uploading := if opening.PutOpening? then Some(id) else None,
           pending := if opening.PutOpening? then F.Segments(id, opening.data) else [])
  }

  function ClientSendChunk(l: Link): Link
    requires l.pending != []
  {
    l.(toServer := l.toServer + [ChunkOf(l.pending[0])], pending := l.pending[1..],
       uploading := if |l.pending| == 1 then None else l.uploading)
  }

  function ServerReceive(c: Codec, l: Link, handled: bool): Link
    requires l.toServer != []
  {
    var r := DispatchOne(c, l.server, Arrival(FrameOf(c, l.toServer[0]), handled));
    if r.Going? then l.(server := r.next, toServer := l.toServer[1..])
    else l.(closed := true, fault := if r.Faulted? then Some(r.fault) else None)
  }

  function Advance(c: Codec, l: Link, a: Action): Link {
    if l.closed then l
    else
      match a
      case OpenStream(opening) => if l.ended || l.uploading.Some? then l else ClientOpen(c, l, opening)
      case SendChunk => if l.uploading.Some? && l.pending != [] then ClientSendChunk(l) else l
      case CloseStream(id) =>
        if l.ended || l.uploading.Some? || id !in l.client.active || id in l.leaked then l
        else l.(client := Close(l.client, id).reg, toServer := l.toServer + [Closing(id)])
      case Deliver(handled) => if l.toServer == [] then l else ServerReceive(c, l, handled)
      case EndSession =>
        if l.ended || l.uploading.Some? then l
        else l.(client := Clear(l.client), toServer := l.toServer + [Ending], ended := true)
      case Disconnect => l.(closed := true)
  }

  function LinkAfter(c: Codec, actions: seq<Action>): Link {
    if actions == [] then LINK_START else Advance(c, LinkAfter(c, actions[..|actions| - 1]), actions[|actions| - 1])
  }

  // ---- What the messages mean ----------------------------------------------

  /** The active streams and the one whose body is being read. */
  datatype Streams = Streams(active: map<u32, StreamEntry>, reading: Option<u32>)

  function StreamsOf(d: Dispatcher): Streams {
    Streams(d.reg.active, if d.mode == Top then None else Some(d.mode.id))
  }

  /** The effect a message is meant to have, where it makes sense. */
  function Meant(s: Streams, m: Message): Option<Streams> {
    match m
    case Opened(id, o) =>
      if s.reading.Some? || id == 0 || id in s.active then None
      else
        Some(Streams(s.active[id := StreamEntry(id, KindOf(o), ROOT)], if o.PutOpening? then Some(id) else None))
    case Chunk(id, last, _) =>
      if s.reading != Some(id) || id == 0 then None else Some(s.(reading := if last then None else Some(id)))
    case Closing(id) =>
      if s.reading.Some? || id == 0 || id !in s.active then None else Some(s.(active := s.active - {id}))
    case Ending => if s.reading.Some? then None else Some(Streams(map[], None))
  }

  function MeantAll(s: Streams, ms: seq<Message>): Option<Streams> {
    if ms == [] then Some(s)
    else
      var before := MeantAll(s, ms[..|ms| - 1]);
      if before.None? then None else Meant(before.value, ms[|ms| - 1])
  }

  lemma {:induction false} MeantHead(s: Streams, ms: seq<Message>)
    requires ms != [] && MeantAll(s, ms).Some?
    ensures Meant(s, ms[0]).Some? && MeantAll(Meant(s, ms[0]).value, ms[1..]) == MeantAll(s, ms)
  {
    hide Meant;
    var n := |ms| - 1;
    if n == 0 {
      assert ms[..0] == [] && ms[1..] == [];
    } else {
      MeantHead(s, ms[..n]);
      assert ms[..n][0] == ms[0] && ms[..n][1..] == ms[1..][..n - 1];
    }
  }

  lemma MeantSnoc(s: Streams, ms: seq<Message>, m: Message)
    requires MeantAll(s, ms).Some?
    ensures MeantAll(s, ms + [m]) == Meant(MeantAll(s, ms).value, m)
  {
    hide Meant;
    assert (ms + [m])[..|ms|] == ms;
  }

  /** Handling the message runs a command, answers a request or finishes an upload. */
  ghost predicate RunsHandler(m: Message) {
    (m.Opened? && !m.opening.PutOpening?) || (m.Chunk? && m.last)
  }

  ghost predicate SentMessage(c: Codec, m: Message) { m.Opened? ==> Sent(c, m.opening) }

  ghost predicate BlankMessage(m: Message) { m.Opened? && BlankProgram(m.opening) }

  /** On its frame the dispatcher does what a message means, ends, or faults for one of two reasons. */
  lemma DispatchFollows(c: Codec, d: Dispatcher, m: Message, handled: bool)
    requires Faithful(c) && SentMessage(c, m) && Meant(StreamsOf(d), m).Some?
    ensures var r := DispatchOne(c, d, Arrival(FrameOf(c, m), handled));
      if BlankMessage(m) then r == Faulted(d.reg, UnknownOpener)
      else if m.Ending? then r == Ended(d.reg)
      else if RunsHandler(m) && !handled then r.Faulted? && r.fault == HandlerFailed
      else r.Going? && Some(StreamsOf(r.next)) == Meant(StreamsOf(d), m)
  {
    assert ROOT[0] == '/';
    if m.Opened? {
      OpenerDecodes(c, m.opening);
    }
    hide DecodeOpener, Payload, Faithful, BlankProgram, Sent;
  }

  // ---- Agreement -----------------------------------------------------------

  /** Frames of one stream of which exactly the last carries FIN. */
  ghost predicate Uploads(frames: seq<Swsp.Frame>, id: u32) {
    && frames != []
    && forall i :: 0 <= i < |frames| ==>
         frames[i].streamId == id && (Swsp.IsFin(frames[i].flags) <==> i == |frames| - 1)
  }

  /** What is in flight means the step from the server's streams to the client's, leaks aside. */
  ghost predicate InStep(c: Codec, l: Link) {
    && MeantAll(StreamsOf(l.server), l.toServer) == Some(Streams(l.client.active - l.leaked, l.uploading))
    && (!l.ended ==> l.leaked <= l.client.active.Keys)
    && (l.ended ==> l.uploading.None? && l.toServer != [] && l.toServer[|l.toServer| - 1] == Ending)
    && (forall id :: id in l.client.active ==> id != 0)
    && (l.uploading.Some? ==> l.uploading.value != 0 && Uploads(l.pending, l.uploading.value))
    && (forall m :: m in l.toServer ==> SentMessage(c, m))
  }

  lemma OpensInactive(r: Reg, kind: StreamKind)
    ensures var o := Open(r, kind, ROOT);
      if o.result.Ok? then
        var e := o.result.value;
        e == StreamEntry(e.id, kind, ROOT) && e.id != 0 && e.id !in r.active && o.reg.active == r.active[e.id := e]
      else o.reg.active == r.active
  {
    assert ROOT[0] == '/';
    FirstFreeExactly(r.active.Keys, AtLeastOne(r.nextId));
    hide FirstFree;
  }

  lemma SegmentsUpload(id: u32, data: seq<byte>)
    ensures Uploads(F.Segments(id, data), id)
  {
    F.SegmentsShape(id, data);
    hide F.Segments, F.Payloads, Swsp.AllEncodable;
  }

  lemma SentInStep(c: Codec, l: Link, opening: Opening, client: Reg, e: StreamEntry, pending: seq<Swsp.Frame>)
    requires InStep(c, l) && l.uploading.None? && !l.ended && Sent(c, opening)
    requires e == StreamEntry(e.id, KindOf(opening), ROOT) && e.id != 0 && e.id !in l.client.active
    requires client.active == l.client.active[e.id := e] && (opening.PutOpening? ==> Uploads(pending, e.id))
    ensures InStep(c, l.(client := client, toServer := l.toServer + [Opened(e.id, opening)],
                         uploading := if opening.PutOpening? then Some(e.id) else None, pending := pending))
  {
    MeantSnoc(StreamsOf(l.server), l.toServer, Opened(e.id, opening));
    hide MeantAll, Sent, Uploads, StreamsOf;
    assert client.active - l.leaked == (l.client.active - l.leaked)[e.id := e];
  }

  lemma LeakInStep(c: Codec, l: Link, client: Reg, e: StreamEntry)
    requires InStep(c, l) && l.uploading.None? && !l.ended && e.id != 0 && e.id !in l.client.active
    requires client.active == l.client.active[e.id := e]
    ensures InStep(c, l.(client := client, leaked := l.leaked + {e.id}))
  {
    hide MeantAll, Sent, Uploads, StreamsOf;
    assert client.active - (l.leaked + {e.id}) == l.client.active - l.leaked;
  }

  lemma OpenInStep(c: Codec, l: Link, opening: Opening)
    requires InStep(c, l) && l.uploading.None? && !l.ended
    ensures InStep(c, ClientOpen(c, l, opening))
  {
    OpensInactive(l.client, KindOf(opening));
    var o := Open(l.client, KindOf(opening), ROOT);
    hide Open, Sent, F.Segments, Uploads, MeantAll;
    if o.result.Ok? {
      hide InStep;
      var e := o.result.value;
      var frames := if opening.PutOpening? then F.Segments(e.id, opening.data) else [];
      if Sent(c, opening) {
        if opening.PutOpening? { SegmentsUpload(e.id, opening.data); }
        SentInStep(c, l, opening, o.reg, e, frames);
      } else {
        LeakInStep(c, l, o.reg, e);
      }
    }
  }

  lemma ChunkInStep(c: Codec, l: Link)
    requires InStep(c, l) && l.uploading.Some?
    ensures InStep(c, ClientSendChunk(l))
  {
    MeantSnoc(StreamsOf(l.server), l.toServer, ChunkOf(l.pending[0]));
    hide MeantAll, Sent, Swsp.IsFin;
    assert l.pending[0].streamId == l.uploading.value;
    if |l.pending| > 1 {
      assert Uploads(l.pending[1..], l.uploading.value);
    }
  }

  lemma CloseInStep(c: Codec, l: Link, id: u32)
    requires InStep(c, l) && !l.closed
    ensures InStep(c, Advance(c, l, CloseStream(id)))
  {
    if !l.ended && l.uploading.None? && id in l.client.active && id !in l.leaked {
      MeantSnoc(StreamsOf(l.server), l.toServer, Closing(id));
      hide MeantAll, Sent;
      var l' := Advance(c, l, CloseStream(id));
      assert l'.client.active - l'.leaked == (l.client.active - l.leaked) - {id};
    }
  }

  lemma EndInStep(c: Codec, l: Link)
    requires InStep(c, l) && !l.closed
    ensures InStep(c, Advance(c, l, EndSession))
  {
    if !l.ended && l.uploading.None? {
      MeantSnoc(StreamsOf(l.server), l.toServer, Ending);
      hide MeantAll, Sent;
      assert map[] - l.leaked == Clear(l.client).active - l.leaked == map[];
    }
  }

  /** What happens to the next frame, in every link that is in step. */
  lemma ReceiveInStep(c: Codec, l: Link, handled: bool)
    requires Faithful(c) && InStep(c, l) && !l.closed && l.fault.None? && l.toServer != []
    ensures var m, l' := l.toServer[0], ServerReceive(c, l, handled);
      if BlankMessage(m) then l'.closed && l'.fault == Some(UnknownOpener)
      else if m.Ending? then l'.closed && l'.fault.None?
      else if RunsHandler(m) && !handled then l'.closed && l'.fault == Some(HandlerFailed)
      else !l'.closed && l'.fault.None? && InStep(c, l')
  {
    MeantHead(StreamsOf(l.server), l.toServer);
    DispatchFollows(c, l.server, l.toServer[0], handled);
    hide MeantAll, Meant, DispatchOne, Faithful, Sent;
    assert forall m :: m in l.toServer[1..] ==> m in l.toServer;
  }

  lemma {:induction false} AlwaysInStep(c: Codec, actions: seq<Action>)
    requires Faithful(c)
    ensures var l := LinkAfter(c, actions); !l.closed ==> InStep(c, l) && l.fault.None?
  {
    if actions != [] {
      hide InStep, ClientOpen, ClientSendChunk, ServerReceive, Faithful;
      var before, a := actions[..|actions| - 1], actions[|actions| - 1];
      AlwaysInStep(c, before);
      var l := LinkAfter(c, before);
      if !l.closed {
        FaultUnchanged(c, l, a);
        match a
        case OpenStream(opening) => if !l.ended && l.uploading.None? { OpenInStep(c, l, opening); }
        case SendChunk => if l.uploading.Some? { ChunkInStep(c, l); }
        case CloseStream(id) => CloseInStep(c, l, id);
        case Deliver(handled) => if l.toServer != [] { ReceiveInStep(c, l, handled); }
        case EndSession => EndInStep(c, l);
        case Disconnect =>
      }
    } else {
      assert LINK_START.client.active - {} == map[];
    }
  }

  lemma FaultUnchanged(c: Codec, l: Link, a: Action)
    ensures !a.Deliver? ==> Advance(c, l, a).fault == l.fault
  {
  }

  /** The message opens or closes the stream, or ends the session. */
  ghost predicate Concerns(m: Message, id: u32) {
    m.Ending? || (!m.Chunk? && m.id == id)
  }

  /** Such a message is on its way to the server. */
  ghost predicate InFlight(ms: seq<Message>, id: u32) {
    exists k :: 0 <= k < |ms| && Concerns(ms[k], id)
  }

  /** A stream whose standing the messages change is opened or closed by one of them. */
  lemma {:induction false} ChangedInFlight(s: Streams, ms: seq<Message>, id: u32)
    requires MeantAll(s, ms).Some?
    ensures (id in s.active) != (id in MeantAll(s, ms).value.active) ==> InFlight(ms, id)
  {
    if ms != [] {
      var n := |ms| - 1;
      ChangedInFlight(s, ms[..n], id);
      if InFlight(ms[..n], id) {
        var k :| 0 <= k < n && Concerns(ms[..n][k], id);
        assert Concerns(ms[k], id);
      } else if (id in s.active) != (id in MeantAll(s, ms).value.active) {
        assert Concerns(ms[n], id);
      }
    }
  }

  /**
   * For any sequence of shell and file operations, while the session lasts: the two active sets
   * differ only in streams whose SYN or FIN, or the end of the session, is still in flight and in
   * leaked streams, and with nothing in flight the server holds exactly the client's streams that were not leaked, with
   * the same kinds.
   */
  lemma RegistriesAgree(c: Codec, actions: seq<Action>)
    requires Faithful(c)
    ensures var l := LinkAfter(c, actions);
      !l.closed ==>
        && (forall id: u32 :: (id in l.server.reg.active) != (id in l.client.active) ==>
              InFlight(l.toServer, id) || id in l.leaked)
        && (l.toServer == [] ==> l.server.reg.active == l.client.active - l.leaked)
        && (l.toServer == [] ==> (l.server.reg.active == l.client.active <==> l.leaked == {}))
  {
    AlwaysInStep(c, actions);
    hide LinkAfter, Sent;
    var l := LinkAfter(c, actions);
    if !l.closed {
      forall id: u32 | (id in l.server.reg.active) != (id in l.client.active)
        ensures InFlight(l.toServer, id) || id in l.leaked
      {
        ChangedInFlight(StreamsOf(l.server), l.toServer, id);
      }
      hide InFlight, StreamsOf;
      if l.leaked == {} {
        assert l.client.active - l.leaked == l.client.active;
      } else if !l.ended {
        var id :| id in l.leaked;
        assert id in l.client.active && id !in l.client.active - l.leaked;
      }
    }
  }

  // ---- Faults --------------------------------------------------------------

  /** The action delivers an opening with a blank program. */
  ghost predicate DeliversBlank(l: Link, a: Action) {
    !l.closed && a.Deliver? && l.toServer != [] && BlankMessage(l.toServer[0])
  }

  /** The action delivers a readable frame whose handler fails. */
  ghost predicate DeliversUnhandled(l: Link, a: Action) {
    && !l.closed && a.Deliver? && !a.handled && l.toServer != []
    && !BlankMessage(l.toServer[0]) && RunsHandler(l.toServer[0])
  }

  ghost predicate BlankAt(c: Codec, actions: seq<Action>, k: nat) {
    k < |actions| && DeliversBlank(LinkAfter(c, actions[..k]), actions[k])
  }

  ghost predicate UnhandledAt(c: Codec, actions: seq<Action>, k: nat) {
    k < |actions| && DeliversUnhandled(LinkAfter(c, actions[..k]), actions[k])
  }

  /** What one action does to the fault, in any reachable link. */
  lemma FaultStep(c: Codec, l: Link, a: Action)
    requires Faithful(c) && (!l.closed ==> InStep(c, l) && l.fault.None?)
    ensures Advance(c, l, a).fault ==
      if DeliversBlank(l, a) then Some(UnknownOpener)
      else if DeliversUnhandled(l, a) then Some(HandlerFailed)
      else l.fault
    ensures DeliversBlank(l, a) || DeliversUnhandled(l, a) ==> l.fault.None? && Advance(c, l, a).closed
  {
    FaultUnchanged(c, l, a);
    if !l.closed && a.Deliver? && l.toServer != [] {
      ReceiveInStep(c, l, a.handled);
    }
    hide InStep, ServerReceive, ClientOpen, ClientSendChunk, Faithful;
  }

  lemma Earlier(c: Codec, actions: seq<Action>, k: nat)
    requires actions != []
    ensures var n := |actions| - 1;
      && (BlankAt(c, actions, k) <==>
            BlankAt(c, actions[..n], k) || (k == n && DeliversBlank(LinkAfter(c, actions[..n]), actions[n])))
      && (UnhandledAt(c, actions, k) <==>
            UnhandledAt(c, actions[..n], k) || (k == n && DeliversUnhandled(LinkAfter(c, actions[..n]), actions[n])))
  {
    hide LinkAfter, DeliversBlank, DeliversUnhandled;
    var n := |actions| - 1;
    if k < n {
      assert actions[..n][..k] == actions[..k];
    }
  }

  /**
   * In every run the dispatcher gives up on a frame for one of two reasons only: exactly when a
   * delivered opening has a blank program, or exactly when the handler of a delivered frame
   * fails. It never meets a duplicate stream, a FIN for an unknown stream, a frame of another
   * stream or a stream that does not start with SYN and DAT.
   */
  lemma {:induction false} FaultsExactly(c: Codec, actions: seq<Action>)
    requires Faithful(c)
    ensures var fault := LinkAfter(c, actions).fault;
      && (fault == Some(UnknownOpener) <==> exists k: nat :: BlankAt(c, actions, k))
      && (fault == Some(HandlerFailed) <==> exists k: nat :: UnhandledAt(c, actions, k))
      && (fault.Some? ==> fault.value == UnknownOpener || fault.value == HandlerFailed)
  {
    if actions == [] {
      assert forall k: nat :: !BlankAt(c, actions, k) && !UnhandledAt(c, actions, k);
    } else {
      hide Advance, DeliversBlank, DeliversUnhandled, InStep, BlankAt, UnhandledAt, Faithful;
      var n := |actions| - 1;
      var before := actions[..n];
      FaultsExactly(c, before);
      AlwaysInStep(c, before);
      FaultStep(c, LinkAfter(c, before), actions[n]);
      forall k: nat
        ensures BlankAt(c, actions, k) <==>
          BlankAt(c, before, k) || (k == n && DeliversBlank(LinkAfter(c, before), actions[n]))
        ensures UnhandledAt(c, actions, k) <==>
          UnhandledAt(c, before, k) || (k == n && DeliversUnhandled(LinkAfter(c, before), actions[n]))
      {
        Earlier(c, actions, k);
      }
      assert DeliversBlank(LinkAfter(c, before), actions[n]) ==> BlankAt(c, actions, n);
      assert DeliversUnhandled(LinkAfter(c, before), actions[n]) ==> UnhandledAt(c, actions, n);
    }
  }

  /** Every opening in flight is one of the run. */
  lemma {:induction false} InFlightWasOpened(c: Codec, actions: seq<Action>, m: Message)
    requires m in LinkAfter(c, actions).toServer && m.Opened?
    ensures OpenStream(m.opening) in actions
  {
    hide Open, DispatchOne, Sent, F.Segments;
    var n := |actions| - 1;
    if m in LinkAfter(c, actions[..n]).toServer {
      InFlightWasOpened(c, actions[..n], m);
    } else {
      assert actions[n] == OpenStream(m.opening);
    }
  }

  /** What a caller can see to: without blank programs and failing handlers the server never gives up. */
  lemma NoFaultWithoutCause(c: Codec, actions: seq<Action>)
    requires Faithful(c)
    requires forall a :: a in actions && a.OpenStream? ==> !BlankProgram(a.opening)
    requires forall a :: a in actions && a.Deliver? ==> a.handled
    ensures LinkAfter(c, actions).fault.None?
  {
    FaultsExactly(c, actions);
    hide LinkAfter, BlankProgram;
    forall k: nat ensures !BlankAt(c, actions, k) && !UnhandledAt(c, actions, k) {
      if k < |actions| {
        assert actions[k] in actions;
        var l := LinkAfter(c, actions[..k]);
        if DeliversBlank(l, actions[k]) {
          InFlightWasOpened(c, actions[..k], l.toServer[0]);
        }
      }
    }
  }

  // ---- The end of a session ------------------------------------------------

  /** `n` frames delivered in a row, their handlers succeeding. */
  function Delivered(c: Codec, l: Link, n: nat): Link
    decreases n
  {
    if n == 0 then l else Delivered(c, Advance(c, l, Deliver(true)), n - 1)
  }

  lemma {:induction false} EndArrives(c: Codec, l: Link)
    requires Faithful(c) && InStep(c, l) && l.ended && !l.closed && l.fault.None?
    requires forall m :: m in l.toServer ==> !BlankMessage(m)
    ensures var l' := Delivered(c, l, |l.toServer|); l'.closed && l'.fault.None?
    decreases |l.toServer|
  {
    var m, l' := l.toServer[0], ServerReceive(c, l, true);
    ReceiveInStep(c, l, true);
    hide Faithful, DispatchOne, MeantAll, Sent, BlankMessage;
    assert Advance(c, l, Deliver(true)) == l';
    if m.Ending? {
      ClosedStays(c, l', |l.toServer| - 1);
    } else {
      assert l'.toServer == l.toServer[1..];
      assert forall x :: x in l'.toServer ==> x in l.toServer;
      EndArrives(c, l');
    }
  }

  lemma {:induction false} ClosedStays(c: Codec, l: Link, n: nat)
    requires l.closed
    ensures Delivered(c, l, n) == l
    decreases n
  {
    if n > 0 { ClosedStays(c, l, n - 1); }
  }

  lemma NoBlankInFlight(c: Codec, actions: seq<Action>)
    requires forall a :: a in actions && a.OpenStream? ==> !BlankProgram(a.opening)
    ensures forall m :: m in LinkAfter(c, actions).toServer ==> !BlankMessage(m)
  {
    hide LinkAfter, BlankProgram;
    forall m | m in LinkAfter(c, actions).toServer ensures !BlankMessage(m) {
      if m.Opened? { InFlightWasOpened(c, actions, m); }
    }
  }

  lemma EndsInOrder(c: Codec, l: Link)
    requires Faithful(c) && InStep(c, l) && !l.closed && !l.ended && l.uploading.None? && l.fault.None?
    requires forall m :: m in l.toServer ==> !BlankMessage(m)
    ensures var ended := Advance(c, l, EndSession);
      && ended.client.active == map[] && ended.toServer == l.toServer + [Ending] && !ended.closed
      && Delivered(c, ended, |l.toServer| + 1).closed && Delivered(c, ended, |l.toServer| + 1).fault.None?
  {
    hide InStep, Faithful, Delivered, ClientOpen, ClientSendChunk, ServerReceive;
    EndInStep(c, l);
    EndArrives(c, Advance(c, l, EndSession));
  }

  /**
   * After any run that opened no blank program, a client that ends its session between operations
   * holds no streams any more, and delivering what is in flight ends the server's session without
   * a fault, however many streams were left open.
   */
  lemma OrderlyEnd(c: Codec, actions: seq<Action>)
    requires Faithful(c)
    requires forall a :: a in actions && a.OpenStream? ==> !BlankProgram(a.opening)
    ensures var l := LinkAfter(c, actions);
      !l.closed && !l.ended && l.uploading.None? ==>
        var ended := Advance(c, l, EndSession);
        && ended.client.active == map[] && ended.toServer == l.toServer + [Ending] && !ended.closed
        && Delivered(c, ended, |l.toServer| + 1).closed && Delivered(c, ended, |l.toServer| + 1).fault.None?
  {
    hide *;
    AlwaysInStep(c, actions);
    NoBlankInFlight(c, actions);
    var l := LinkAfter(c, actions);
    if !l.closed && !l.ended && l.uploading.None? {
      EndsInOrder(c, l);
    }
  }

  /** Losing the connection closes the link, at any time and without a fault of the server. */
  lemma DisconnectCloses(c: Codec, actions: seq<Action>)
    ensures var l := LinkAfter(c, actions + [Disconnect]);
      l.closed && l.fault == LinkAfter(c, actions).fault && l.client == LinkAfter(c, actions).client
  {
    assert (actions + [Disconnect])[..|actions|] == actions;
  }

  // ---- Uploads -------------------------------------------------------------

  function ChunksOf(frames: seq<Swsp.Frame>): seq<Message> {
    seq(|frames|, i requires 0 <= i < |frames| => ChunkOf(frames[i]))
  }

  function SentChunks(l: Link, n: nat): Link
    decreases n
  {
    if n == 0 || l.pending == [] then l else SentChunks(ClientSendChunk(l), n - 1)
  }

  lemma {:induction false} AllChunksSent(l: Link)
    ensures SentChunks(l, |l.pending|).toServer == l.toServer + ChunksOf(l.pending)
    ensures SentChunks(l, |l.pending|).pending == []
    ensures l.pending != [] ==> SentChunks(l, |l.pending|).uploading.None?
    decreases |l.pending|
  {
    if l.pending == [] {
      assert l.toServer + ChunksOf(l.pending) == l.toServer;
    } else {
      var l' := ClientSendChunk(l);
      AllChunksSent(l');
      assert l.toServer + [ChunkOf(l.pending[0])] + ChunksOf(l.pending[1..]) == l.toServer + ChunksOf(l.pending);
    }
  }

  /** An upload that is sent puts its opening and then exactly the segments of its data in flight. */
  lemma UploadSentWhole(c: Codec, l: Link, opening: Opening)
    requires opening.PutOpening? && Sent(c, opening) && l.uploading.None?
    ensures var o := Open(l.client, File, ROOT);
      o.result.Ok? ==>
        var id, l' := o.result.value.id, ClientOpen(c, l, opening);
        var done := SentChunks(l', |F.Segments(id, opening.data)|);
        && done.toServer == l.toServer + [Opened(id, opening)] + ChunksOf(F.Segments(id, opening.data))
        && done.uploading.None?
  {
    hide Sent, Open, F.Segments;
    if Open(l.client, File, ROOT).result.Ok? {
      AllChunksSent(ClientOpen(c, l, opening));
    }
  }

  /** A blank program is sent, and the server answers it by ending the session. */
  lemma BlankProgramFaults(c: Codec)
    requires Faithful(c) && |Payload(c, ShellOpening("", [], "."))| <= F.MAX
    ensures var l := LinkAfter(c, [OpenStream(ShellOpening("", [], ".")), Deliver(true)]);
      l.closed && l.fault == Some(UnknownOpener)
  {
    var o := ShellOpening("", [], ".");
    FirstOpening(c, o);
    hide Payload, Open;
    var a, b := OpenStream(o), Deliver(true);
    assert [a, b][..1] == [a];
    var l := LinkAfter(c, [a]);
    AlwaysInStep(c, [a]);
    ReceiveInStep(c, l, true);
    assert LinkAfter(c, [a, b]) == ServerReceive(c, l, true);
  }

  // ---- Leaks ---------------------------------------------------------------

  /** The action takes an id for an opening that is then not sent. */
  ghost predicate Leaks(c: Codec, l: Link, a: Action) {
    && a.OpenStream? && !l.closed && !l.ended && l.uploading.None?
    && Open(l.client, KindOf(a.opening), ROOT).result.Ok?
    && ((!a.opening.ShellOpening? && Blank(a.opening.path)) || |Payload(c, a.opening)| > F.MAX)
  }

  lemma LeakStep(c: Codec, l: Link, a: Action)
    ensures Advance(c, l, a).leaked != {} <==> l.leaked != {} || Leaks(c, l, a)
  {
    if a.OpenStream? {
      SentExactly(c, a.opening);
    }
    hide Sent, Payload, Open, Blank, F.Segments, DispatchOne;
  }

  ghost predicate LeakAt(c: Codec, actions: seq<Action>, k: nat) {
    k < |actions| && Leaks(c, LinkAfter(c, actions[..k]), actions[k])
  }

  /** Streams leak exactly when some opening of the run has a blank file path or does not fit one frame. */
  lemma {:induction false} LeakedExactly(c: Codec, actions: seq<Action>)
    ensures LinkAfter(c, actions).leaked != {} <==> exists k: nat :: LeakAt(c, actions, k)
  {
    if actions == [] {
      assert forall k: nat :: !LeakAt(c, actions, k);
    } else {
      hide Advance, Leaks;
      var n := |actions| - 1;
      var before := actions[..n];
      LeakedExactly(c, before);
      LeakStep(c, LinkAfter(c, before), actions[n]);
      forall k: nat
        ensures LeakAt(c, actions, k) <==>
          LeakAt(c, before, k) || (k == n && Leaks(c, LinkAfter(c, before), actions[n]))
      {
        if k < n {
          assert before[..k] == actions[..k];
        }
      }
      assert LeakAt(c, actions, n) <==> Leaks(c, LinkAfter(c, before), actions[n]);
    }
  }

  /** The first opening of a session takes stream 1, whether it is sent or not. */
  lemma FirstOpening(c: Codec, o: Opening)
    ensures var l := LinkAfter(c, [OpenStream(o)]);
      && !l.closed && l.fault.None? && 1 in l.client.active && l.server.reg.active == map[]
      && l.toServer == if Sent(c, o) then [Opened(1, o)] else []
  {
    var a := OpenStream(o);
    hide Sent, F.Segments;
    assert [a][..0] == [];
    assert ROOT[0] == '/';
    assert FirstFree({}, 1, 0) == Some(1);
    assert LinkAfter(c, [a]) == Advance(c, LINK_START, a);
    assert Open(NEW, KindOf(o), ROOT).result == Ok(StreamEntry(1, KindOf(o), ROOT));
  }

  /** A blank path leaks: nothing is in flight, and the client holds a stream the server never saw. */
  lemma BlankPathLeaks(c: Codec)
    ensures var l := LinkAfter(c, [OpenStream(PutOpening(" ", [], false))]);
      !l.closed && l.toServer == [] && 1 in l.client.active && 1 !in l.server.reg.active
  {
    FirstOpening(c, PutOpening(" ", [], false));
  }

  /** So does a program whose name alone is longer than a frame. */
  lemma OversizedOpeningLeaks(c: Codec)
    requires Faithful(c)
    ensures var l := LinkAfter(c, [OpenStream(ShellOpening(seq(F.MAX + 1, _ => 'a'), [], "."))]);
      !l.closed && l.toServer == [] && 1 in l.client.active && 1 !in l.server.reg.active
  {
    FirstOpening(c, ShellOpening(seq(F.MAX + 1, _ => 'a'), [], "."));
  }
}
