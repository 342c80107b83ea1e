/** The control handshake: one runtime per side, reacting to control messages. */
module Handshake {
  import opened Common
  import opened Session

  const PROTOCOL_VERSION := 3

  datatype ControlMessage =
    | Connect(path: string, version: int)
    | AuthRequired
    | Auth(pin: string)
    | AuthResult(success: bool)
    | ReadyMessage(routing: string)
    | ErrorMessage

  datatype Role = Server | Client

  datatype RuntimeConfig = RuntimeConfig(role: Role, policy: Policy, pins: seq<string>, path: string, routing: string)

  /** A runtime as a value. */
  datatype Rt = Rt(
    ses: Ses,
    pins: seq<string>,
    connectSeen: bool,
    authPending: bool,
    lastPin: Option<string>,
    readySeen: bool)

  function NewRt(c: RuntimeConfig): Rt { Rt(START, c.pins, false, false, None, false) }

  /** Whether the handshake loop goes on, returns `Ok`, or returns an error. */
  datatype Verdict = Continue | Finished | Failed

  /** The runtime after one message, what it managed to send, and its verdict. */
  datatype Reaction = Reaction(rt: Rt, out: seq<ControlMessage>, verdict: Verdict)

  // ---- Reactions as functions ----------------------------------------------
  // `sends` is how many messages the channel still accepts: a send beyond it fails.

  /** The error notice is best effort; the session is closed either way. */
  function FailSession(rt: Rt, sends: nat): Reaction {
    Reaction(rt.(ses := CloseSession(rt.ses)), if sends > 0 then [ErrorMessage] else [], Failed)
  }

  function Preceded(sent: seq<ControlMessage>, r: Reaction): Reaction { r.(out := sent + r.out) }

  function SendReady(c: RuntimeConfig, rt: Rt, sends: nat): Reaction {
    if rt.readySeen then FailSession(rt, sends)
    else if sends == 0 then Reaction(rt, [], Failed)
    else Reaction(rt.(readySeen := true), [ReadyMessage(c.routing)], Finished)
  }

  function ServerConnect(c: RuntimeConfig, rt: Rt, path: string, version: int, sends: nat): Reaction {
    if rt.connectSeen then FailSession(rt, sends)
    else
      var seen := rt.(connectSeen := true);
      if Blank(path) then FailSession(seen, sends)
      else if version != 0 && version != PROTOCOL_VERSION then FailSession(seen, sends)
      else
        var begun := BeginAuthentication(c.policy, seen.ses);
        var next := seen.(ses := begun.ses);
        if begun.result.Err? then Reaction(next, [], Failed)
        else if !begun.result.value then SendReady(c, next, sends)
        else if sends == 0 then Reaction(next, [], Failed)
        else Reaction(next, [AuthRequired], Continue)
  }

  function ServerAuth(c: RuntimeConfig, rt: Rt, pin: string, now: nat, sends: nat): Reaction {
    if rt.ses.state != Authenticating then FailSession(rt, sends)
    else if rt.lastPin == Some(pin) then FailSession(rt, sends)
    else
      var tried := Authenticate(c.policy, rt.ses, pin, now);
      var next := rt.(lastPin := Some(pin), ses := tried.ses);
      if tried.result.Err? || sends == 0 then Reaction(next, [], Failed)
      else
        match tried.result.value
        case AuthReady => Preceded([AuthResult(true)], SendReady(c, next, sends - 1))
        case Rejected(_) =>
          if sends == 1 then Reaction(next, [AuthResult(false)], Failed)
          else Reaction(next, [AuthResult(false), AuthRequired], Continue)
        case AuthClosed => Preceded([AuthResult(false)], FailSession(next, sends - 1))
  }

  function ServerHandle(c: RuntimeConfig, rt: Rt, m: ControlMessage, now: nat, sends: nat): Reaction {
    match m
    case Connect(path, version) => ServerConnect(c, rt, path, version, sends)
    case Auth(pin) => ServerAuth(c, rt, pin, now, sends)
    case _ => FailSession(rt, sends)
  }

  function ClientAuthRequired(rt: Rt, sends: nat): Reaction {
    if rt.authPending || rt.readySeen then FailSession(rt, sends)
    else
      var accepted := AcceptAuthRequired(rt.ses);
      var next := rt.(ses := accepted.ses);
      if accepted.result.Err? || rt.pins == [] then Reaction(next, [], Failed)
      else
        var pin := rt.pins[0];
        var popped := next.(pins := rt.pins[1..], authPending := true);
        if Blank(pin) || sends == 0 then Reaction(popped, [], Failed)
        else Reaction(popped, [Auth(pin)], Continue)
  }

  function ClientAuthResult(rt: Rt, success: bool, sends: nat): Reaction {
    if !rt.authPending then FailSession(rt, sends)
    else
      var accepted := AcceptAuthResult(rt.ses, success);
      Reaction(rt.(authPending := false, ses := accepted.ses), [], if accepted.result.Err? then Failed else Continue)
  }

  function ClientReady(rt: Rt, routing: string, sends: nat): Reaction {
    if rt.readySeen || rt.authPending || Blank(routing) then FailSession(rt, sends)
    else
      var marked := MarkReady(rt.ses);
      if marked.result.Err? then Reaction(rt.(ses := marked.ses), [], Failed)
      else Reaction(rt.(ses := marked.ses, readySeen := true), [], Finished)
  }

  function ClientHandle(rt: Rt, m: ControlMessage, sends: nat): Reaction {
    match m
    case AuthRequired => ClientAuthRequired(rt, sends)
    case AuthResult(success) => ClientAuthResult(rt, success, sends)
    case ReadyMessage(routing) => ClientReady(rt, routing, sends)
    case _ => FailSession(rt, sends)
  }

  /** A received control message: when it is handled, and how many sends will succeed. */
  datatype Event = Event(message: ControlMessage, now: nat, sends: nat)

  function Handle(c: RuntimeConfig, rt: Rt, e: Event): Reaction {
    if c.role == Server then ServerHandle(c, rt, e.message, e.now, e.sends)
    else ClientHandle(rt, e.message, e.sends)
  }

  /** The handshake loop over what arrives; running out of messages is a receive error. */
  function Loop(c: RuntimeConfig, rt: Rt, inbox: seq<Event>): Reaction
    decreases |inbox|
  {
    if inbox == [] then Reaction(rt.(ses := CloseSession(rt.ses)), [], Failed)
    else
      var r := Handle(c, rt, inbox[0]);
      if r.verdict != Continue then r else Preceded(r.out, Loop(c, r.rt, inbox[1..]))
  }

  lemma LoopStep(c: RuntimeConfig, rt: Rt, inbox: seq<Event>, sent: seq<ControlMessage>)
    requires inbox != []
    ensures var r := Handle(c, rt, inbox[0]);
      Preceded(sent, Loop(c, rt, inbox)) ==
        if r.verdict == Continue then Preceded(sent + r.out, Loop(c, r.rt, inbox[1..]))
        else Reaction(r.rt, sent + r.out, r.verdict)
  {
  }

  // ---- The runtime object --------------------------------------------------

  class SessionRuntime {
    const config: RuntimeConfig
    const session: Session
    var pins: seq<string>
    var started: bool
    var connectSeen: bool
    var authPending: bool
    var lastPin: Option<string>
    var readySeen: bool

    ghost function View(): Rt
      reads this, session, session.registry
    {
      Rt(session.View(), pins, connectSeen, authPending, lastPin, readySeen)
    }

    ghost predicate Valid()
      reads this
    {
      session.policy == config.policy
    }

    constructor (config: RuntimeConfig, session: Session)
      requires session.policy == config.policy
      ensures this.config == config && this.session == session && Valid() && !started
      ensures View() == NewRt(config).(ses := session.View())
    {
      this.config, this.session := config, session;
      pins, started := config.pins, false;
      connectSeen, authPending, lastPin, readySeen := false, false, None, false;
    }

    method Fail(sends: nat) returns (out: seq<ControlMessage>, verdict: Verdict)
      modifies session, session.registry
      ensures Reaction(View(), out, verdict) == FailSession(old(View()), sends)
    {
      out := if sends > 0 then [ErrorMessage] else [];
      session.CloseAll();
      verdict := Failed;
    }

    method AnnounceReady(sends: nat) returns (out: seq<ControlMessage>, verdict: Verdict)
      modifies this`readySeen, session, session.registry
      ensures Reaction(View(), out, verdict) == SendReady(config, old(View()), sends)
    {
      if readySeen {
        out, verdict := Fail(sends);
        return;
      }
      if sends == 0 { return [], Failed; }
      readySeen := true;
      return [ReadyMessage(config.routing)], Finished;
    }

    method HandleConnect(path: string, version: int, sends: nat) returns (out: seq<ControlMessage>, verdict: Verdict)
      requires Valid()
      modifies this, session, session.registry
      ensures started == old(started)
      ensures Reaction(View(), out, verdict) == ServerConnect(config, old(View()), path, version, sends)
    {
      if connectSeen {
        out, verdict := Fail(sends);
        return;
      }
      connectSeen := true;
      if Blank(path) || (version != 0 && version != PROTOCOL_VERSION) {
        out, verdict := Fail(sends);
        return;
      }
      var begun := session.Begin();
      if begun.Err? { return [], Failed; }
      if !begun.value {
        out, verdict := AnnounceReady(sends);
        return;
      }
      if sends == 0 { return [], Failed; }
      return [AuthRequired], Continue;
    }

    method HandleAuth(pin: string, now: nat, sends: nat) returns (out: seq<ControlMessage>, verdict: Verdict)
      requires Valid()
      modifies this, session, session.registry
      ensures started == old(started)
      ensures Reaction(View(), out, verdict) == ServerAuth(config, old(View()), pin, now, sends)
    {
      if session.state != Authenticating || lastPin == Some(pin) {
        out, verdict := Fail(sends);
        return;
      }
      lastPin := Some(pin);
      var tried := session.TryPin(pin, now);
      if tried.Err? || sends == 0 { return [], Failed; }
      match tried.value {
        case AuthReady =>
          var more;
          more, verdict := AnnounceReady(sends - 1);
          out := [AuthResult(true)] + more;
        case Rejected(_) =>
          if sends == 1 { return [AuthResult(false)], Failed; }
          return [AuthResult(false), AuthRequired], Continue;
        case AuthClosed =>
          var more;
          more, verdict := Fail(sends - 1);
          out := [AuthResult(false)] + more;
      }
    }

    method HandleServerMessage(m: ControlMessage, now: nat, sends: nat)
      returns (out: seq<ControlMessage>, verdict: Verdict)
      requires Valid()
      modifies this, session, session.registry
      ensures started == old(started)
      ensures Reaction(View(), out, verdict) == ServerHandle(config, old(View()), m, now, sends)
    {
      match m {
        case Connect(path, version) => out, verdict := HandleConnect(path, version, sends);
        case Auth(pin) => out, verdict := HandleAuth(pin, now, sends);
        case _ => out, verdict := Fail(sends);
      }
    }

    method HandleClientMessage(m: ControlMessage, sends: nat) returns (out: seq<ControlMessage>, verdict: Verdict)
      modifies this, session, session.registry
      ensures started == old(started)
      ensures Reaction(View(), out, verdict) == ClientHandle(old(View()), m, sends)
    {
      match m {
        case AuthRequired =>
          if authPending || readySeen {
            out, verdict := Fail(sends);
            return;
          }
          var accepted := session.AuthRequired();
          if accepted.Err? || pins == [] { return [], Failed; }
          var pin := pins[0];
          pins := pins[1..];
          authPending := true;
          if Blank(pin) || sends == 0 { return [], Failed; }
          return [Auth(pin)], Continue;
        case AuthResult(success) =>
          if !authPending {
            out, verdict := Fail(sends);
            return;
          }
          authPending := false;
          var accepted := session.AuthResult(success);
          return [], if accepted.Err? then Failed else Continue;
        case ReadyMessage(routing) =>
          if readySeen || authPending || Blank(routing) {
            out, verdict := Fail(sends);
            return;
          }
          var marked := session.BecomeReady();
          if marked.Err? { return [], Failed; }
          readySeen := true;
          return [], Finished;
        case _ => out, verdict := Fail(sends);
      }
    }

    /**
     * The whole handshake over what the channel delivers; a second call is refused untouched.
     * `greeted` tells whether the client's opening message could be sent.
     */
    method Handshake(inbox: seq<Event>, greeted: bool) returns (out: seq<ControlMessage>, verdict: Verdict)
      requires Valid()
      modifies this, session, session.registry
      ensures started
      ensures old(started) ==> View() == old(View()) && out == [] && verdict == Failed
      ensures !old(started) ==>
        var hello := if config.role == Client then [Connect(config.path, PROTOCOL_VERSION)] else [];
        if config.role == Client && (Blank(config.path) || !greeted) then
          View() == old(View()) && out == [] && verdict == Failed
        else Reaction(View(), out, verdict) == Preceded(hello, Loop(config, old(View()), inbox))
    {
      hide ServerHandle, ClientHandle;
      out := [];
      if started { return [], Failed; }
      started := true;
      if config.role == Client {
        if Blank(config.path) || !greeted { return [], Failed; }
        out := [Connect(config.path, PROTOCOL_VERSION)];
      }
      ghost var hello, before := out, View();
      var i := 0;
      verdict := Continue;
      while i < |inbox| && verdict == Continue
        invariant 0 <= i <= |inbox| && started
        invariant Preceded(hello, Loop(config, before, inbox)) ==
          if verdict == Continue then Preceded(out, Loop(config, View(), inbox[i..]))
          else Reaction(View(), out, verdict)
      {
        var more;
        LoopStep(config, View(), inbox[i..], out);
        if config.role == Server {
          more, verdict := HandleServerMessage(inbox[i].message, inbox[i].now, inbox[i].sends);
        } else {
          more, verdict := HandleClientMessage(inbox[i].message, inbox[i].sends);
        }
        assert inbox[i..][1..] == inbox[i + 1..];
        out := out + more;
        i := i + 1;
      }
      if verdict == Continue {
        assert inbox[i..] == [];
        session.CloseAll();
        verdict := Failed;
        assert out + [] == out;
      }
    }
  }
}
