/** Which messages make the handshake of one side succeed, whoever sends them. */
module HandshakeExact {
  import opened Common
  import opened Registry
  import opened Session
  import opened Handshake
  import opened HandshakeRuns

  // ---- The client ----------------------------------------------------------

  /**
   * Rounds of a request for a PIN and a result, one PIN each and the client able to send it, followed
   * by a Ready with routing.
   */
  predicate ClientAccepts(pins: seq<string>, inbox: seq<Event>)
    decreases |inbox|
  {
    inbox != [] &&
    match inbox[0].message
    case ReadyMessage(routing) => !Blank(routing)
    case AuthRequired =>
      && pins != [] && !Blank(pins[0]) && inbox[0].sends > 0
      && |inbox| > 1 && inbox[1].message.AuthResult?
      && ClientAccepts(pins[1..], inbox[2..])
    case _ => false
  }

  /** The PINs of those rounds, in the order of the client's list. */
  function RoundPins(pins: seq<string>, inbox: seq<Event>): seq<ControlMessage>
    requires ClientAccepts(pins, inbox)
    decreases |inbox|
  {
    if inbox[0].message.AuthRequired? then [Auth(pins[0])] + RoundPins(pins[1..], inbox[2..]) else []
  }

  ghost predicate ClientIdle(rt: Rt) {
    (rt.ses.state == Connecting || rt.ses.state == Authenticating) && !rt.authPending && !rt.readySeen
  }

  /** A message that does not fit ends the handshake of an idle client. */
  lemma IdleStep(rt: Rt, e: Event)
    requires ClientIdle(rt)
    ensures var r := ClientHandle(rt, e.message, e.sends);
      match e.message
      case ReadyMessage(routing) =>
        if Blank(routing) then r.verdict == Failed else r.verdict == Finished && r.out == [] && r.rt.ses.state == Ready
      case AuthRequired =>
        if rt.pins == [] || Blank(rt.pins[0]) || e.sends == 0 then r.verdict == Failed
        else
          && r.verdict == Continue && r.out == [Auth(rt.pins[0])]
          && r.rt == Rt(r.rt.ses, rt.pins[1..], rt.connectSeen, true, rt.lastPin, false)
          && r.rt.ses.state == Authenticating
      case _ => r.verdict == Failed
  {
    hide Registry.Clear;
  }

  /** While a PIN is out only its result is welcome. */
  lemma PendingStep(rt: Rt, e: Event)
    requires rt.ses.state == Authenticating && rt.authPending && !rt.readySeen
    ensures var r := ClientHandle(rt, e.message, e.sends);
      if e.message.AuthResult? then
        && r.verdict == Continue && r.out == [] && r.rt.pins == rt.pins
        && !r.rt.authPending && !r.rt.readySeen && r.rt.ses.state == Authenticating
      else r.verdict == Failed
  {
    hide Registry.Clear, Blank;
  }

  lemma {:induction false} ClientLoop(c: RuntimeConfig, rt: Rt, inbox: seq<Event>)
    requires c.role == Client && ClientIdle(rt)
    ensures var r := Loop(c, rt, inbox);
      && (r.verdict == Finished <==> ClientAccepts(rt.pins, inbox))
      && r.verdict != Continue
      && (r.verdict == Finished ==> r.rt.ses.state == Ready && r.out == RoundPins(rt.pins, inbox))
    decreases |inbox|
  {
    if inbox != [] {
      IdleStep(rt, inbox[0]);
      hide ClientHandle, Blank;
      var r := Handle(c, rt, inbox[0]);
      if r.verdict == Continue {
        if |inbox| > 1 {
          PendingStep(r.rt, inbox[1]);
          var r' := Handle(c, r.rt, inbox[1]);
          assert inbox[1..][0] == inbox[1] && inbox[1..][1..] == inbox[2..];
          if r'.verdict == Continue {
            ClientLoop(c, r'.rt, inbox[2..]);
            var rest := Loop(c, r'.rt, inbox[2..]);
            assert Loop(c, r.rt, inbox[1..]) == Preceded([], rest);
            assert r.out + ([] + rest.out) == r.out + rest.out;
          }
        }
      }
    }
  }

  /**
   * The client's handshake succeeds exactly on such rounds, each answered with the next PIN of its
   * list, and on nothing else.
   */
  lemma ClientFinishesExactly(c: RuntimeConfig, inbox: seq<Event>)
    requires c.role == Client
    ensures var r := Loop(c, NewRt(c), inbox);
      && (r.verdict == Finished <==> ClientAccepts(c.pins, inbox))
      && (r.verdict == Finished ==> r.rt.ses.state == Ready && r.out == RoundPins(c.pins, inbox))
  {
    ClientLoop(c, NewRt(c), inbox);
  }

  // ---- The server ----------------------------------------------------------

  /** The message at `k` offers a PIN other than the one before, not inside its retry delay. */
  predicate FreshPin(c: RuntimeConfig, inbox: seq<Event>, k: nat)
    requires 1 <= k < |inbox|
  {
    && inbox[k].message.Auth?
    && (k > 1 ==>
          && inbox[k - 1].message != inbox[k].message
          && inbox[k - 1].now + c.policy.pinFailDelay <= inbox[k].now)
  }

  /** A wrong PIN after which another one can still come. */
  predicate WrongAt(c: RuntimeConfig, inbox: seq<Event>, k: nat)
    requires 1 <= k < |inbox|
  {
    && FreshPin(c, inbox, k) && !PinMatches(c.policy.expectedPin, inbox[k].message.pin)
    && inbox[k].now + c.policy.pinFailDelay <= c.policy.horizon && inbox[k].sends >= 2
  }

  ghost predicate WrongSoFar(c: RuntimeConfig, inbox: seq<Event>, n: nat) {
    1 <= n <= |inbox| && forall k :: 1 <= k < n ==> WrongAt(c, inbox, k)
  }

  /** The right PIN comes at `n`, within the limit and after wrong ones only. */
  ghost predicate AdmitsAt(c: RuntimeConfig, inbox: seq<Event>, n: nat) {
    && WrongSoFar(c, inbox, n) && n < |inbox| && n <= c.policy.maxAuthFails
    && FreshPin(c, inbox, n) && PinMatches(c.policy.expectedPin, inbox[n].message.pin) && inbox[n].sends >= 2
  }

  /** The server before message `n`. */
  function Waiting(c: RuntimeConfig, inbox: seq<Event>, n: nat): Rt
    requires 1 <= n <= |inbox| && (n > 1 ==> inbox[n - 1].message.Auth?) && n - 1 <= U32_MAX
  {
    Rt(Ses(Authenticating, n - 1, if n == 1 then None else Some(inbox[n - 1].now + c.policy.pinFailDelay), NEW),
       c.pins, true, false, if n == 1 then None else Some(inbox[n - 1].message.pin), false)
  }

  lemma WaitingStep(c: RuntimeConfig, inbox: seq<Event>, n: nat)
    requires c.policy.pinRequired && ValidPolicy(c.policy)
    requires WrongSoFar(c, inbox, n) && n < |inbox| && n <= c.policy.maxAuthFails
    ensures n > 1 ==> inbox[n - 1].message.Auth?
    ensures var e := inbox[n];
      var r := ServerHandle(c, Waiting(c, inbox, n), e.message, e.now, e.sends);
      if AdmitsAt(c, inbox, n) then r.verdict == Finished
      else if WrongAt(c, inbox, n) && n < c.policy.maxAuthFails then
        r.verdict == Continue && r.rt == Waiting(c, inbox, n + 1)
      else r.verdict == Failed
  {
    hide Registry.Clear, Blank;
    if n > 1 { assert WrongAt(c, inbox, n - 1); }
  }

  lemma {:induction false} ServerLoop(c: RuntimeConfig, inbox: seq<Event>, n: nat)
    requires c.role == Server && c.policy.pinRequired && ValidPolicy(c.policy)
    requires WrongSoFar(c, inbox, n) && n <= c.policy.maxAuthFails
    ensures n > 1 ==> inbox[n - 1].message.Auth?
    ensures Loop(c, Waiting(c, inbox, n), inbox[n..]).verdict == Finished <==>
      exists m: nat :: n <= m && AdmitsAt(c, inbox, m)
    decreases |inbox| - n
  {
    if n > 1 { assert WrongAt(c, inbox, n - 1); }
    var rt := Waiting(c, inbox, n);
    if n < |inbox| {
      WaitingStep(c, inbox, n);
      hide ServerHandle, ValidPolicy;
      assert inbox[n..][0] == inbox[n] && inbox[n..][1..] == inbox[n + 1..];
      var r := Handle(c, rt, inbox[n]);
      if AdmitsAt(c, inbox, n) {
      } else if WrongAt(c, inbox, n) && n < c.policy.maxAuthFails {
        assert WrongSoFar(c, inbox, n + 1);
        ServerLoop(c, inbox, n + 1);
        assert forall m: nat :: n <= m && AdmitsAt(c, inbox, m) ==> n + 1 <= m;
      } else {
        forall m: nat | n <= m ensures !AdmitsAt(c, inbox, m) {}
      }
    } else {
      assert inbox[n..] == [];
    }
  }

  /**
   * The handshake of a server succeeds exactly when the first message is an acceptable Connect it can
   * answer and, if a PIN is required, wrong PINs fewer than the limit are followed by the right one,
   * each different from the one before it and outside its retry delay.
   */
  lemma ServerFinishesExactly(c: RuntimeConfig, inbox: seq<Event>)
    requires c.role == Server && ValidPolicy(c.policy)
    ensures Loop(c, NewRt(c), inbox).verdict == Finished <==>
      && inbox != [] && GoodConnect(inbox[0].message) && inbox[0].sends > 0
      && (c.policy.pinRequired ==> exists n: nat :: AdmitsAt(c, inbox, n))
  {
    if inbox != [] {
      var e := inbox[0];
      FirstMessage(c, e);
      hide ServerHandle, ValidPolicy, GoodConnect;
      if GoodConnect(e.message) && e.sends > 0 && c.policy.pinRequired {
        assert Handle(c, NewRt(c), e).rt == Waiting(c, inbox, 1);
        MaxPositive(c.policy);
        ServerLoop(c, inbox, 1);
        assert forall n: nat :: AdmitsAt(c, inbox, n) ==> 1 <= n;
      }
    }
  }

  lemma MaxPositive(p: Policy)
    requires ValidPolicy(p) && p.pinRequired
    ensures p.maxAuthFails >= 1
  {
  }

  lemma FirstMessage(c: RuntimeConfig, e: Event)
    ensures var r := ServerHandle(c, NewRt(c), e.message, e.now, e.sends);
      if !GoodConnect(e.message) || e.sends == 0 then r.verdict == Failed
      else if !c.policy.pinRequired then r.verdict == Finished
      else r.verdict == Continue && r.rt == Rt(Ses(Authenticating, 0, None, NEW), c.pins, true, false, None, false)
  {
    hide Registry.Clear;
  }
}
