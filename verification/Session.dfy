/** The session state machine and its PIN policy. */
module Session {
  import opened Common
  import opened Registry

  const PIN_LEN := 6

  datatype SessionState = Connecting | Authenticating | Ready | Closed

  /** Configuration of a session. `horizon` is the latest instant the clock can represent. */
  datatype Policy = Policy(
    pinRequired: bool,
    maxAuthFails: u32,
    pinFailDelay: nat,
    expectedPin: Option<string>,
    horizon: nat)

  datatype AuthOutcome = AuthReady | Rejected(remaining: u32) | AuthClosed

  datatype SessionError = WrongState | RetryTooEarly | DelayTooLarge | StreamError(cause: RegistryError)

  /** A session as a value. */
  datatype Ses = Ses(state: SessionState, attempts: u32, nextAllowed: Option<nat>, reg: Reg)

  const START := Ses(Connecting, 0, None, NEW)

  /** What `Session::new` insists on. */
  predicate ValidPolicy(p: Policy) {
    p.pinRequired ==>
      p.maxAuthFails > 0 && p.expectedPin.Some? && !Blank(p.expectedPin.value) && |p.expectedPin.value| == PIN_LEN
  }

  // ---- PIN comparison ------------------------------------------------------

  predicate PinMatches(expected: Option<string>, pin: string) {
    expected.Some? && |expected.value| == PIN_LEN && pin == expected.value
  }

  method CopyPadded(source: string) returns (fixed: array<char>)
    ensures fresh(fixed) && fixed.Length == PIN_LEN
    ensures forall i :: 0 <= i < PIN_LEN ==> fixed[i] == if i < |source| then source[i] else '\0'
  {
    fixed := new char[PIN_LEN](_ => '\0');
    var n := Min(|source|, PIN_LEN);
    for i := 0 to n
      invariant forall j :: 0 <= j < PIN_LEN ==> fixed[j] == if j < i then source[j] else '\0'
    {
      fixed[i] := source[i];
    }
  }

  /**
   * Both sides are copied into zero-padded buffers and compared without an early exit; the two
   * length tests make the answer plain equality of six-byte strings.
   */
  method ConstantTimePinEq(expected: string, provided: string) returns (equal: bool)
    ensures equal <==> |expected| == PIN_LEN && |provided| == PIN_LEN && expected == provided
  {
    var a := CopyPadded(expected);
    var b := CopyPadded(provided);
    var contents := true;
    for i := 0 to PIN_LEN
      invariant contents <==> forall j :: 0 <= j < i ==> a[j] == b[j]
    {
      var same := a[i] == b[i];
      contents := contents && same;
    }
    equal := contents && |expected| == PIN_LEN && |provided| == PIN_LEN;
    if equal {
      forall j | 0 <= j < PIN_LEN ensures expected[j] == provided[j] {
        assert a[j] == b[j];
      }
    }
  }

  // ---- Operations as functions ---------------------------------------------

  datatype Step<T> = Step(ses: Ses, result: Result<T, SessionError>)

  function CloseSession(s: Ses): Ses {
    s.(state := Closed, nextAllowed := None, reg := Clear(s.reg))
  }

  /** `Ok(true)` asks for a PIN; `Ok(false)` needs none. */
  function BeginAuthentication(p: Policy, s: Ses): Step<bool> {
    if s.state != Connecting then Step(s, Err(WrongState))
    else if p.pinRequired then Step(s.(state := Authenticating), Ok(true))
    else Step(s.(state := Ready), Ok(false))
  }

  function AcceptAuthRequired(s: Ses): Step<()> {
    if s.state == Connecting || s.state == Authenticating then Step(s.(state := Authenticating), Ok(()))
    else Step(s, Err(WrongState))
  }

  function AcceptAuthResult(s: Ses, success: bool): Step<()> {
    if s.state != Authenticating then Step(s, Err(WrongState))
    else Step(if success then s.(nextAllowed := None) else s, Ok(()))
  }

  function MarkReady(s: Ses): Step<()> {
    if s.state == Connecting || s.state == Authenticating then
      Step(s.(state := Ready, nextAllowed := None), Ok(()))
    else Step(s, Err(WrongState))
  }

  function SaturatingSucc(n: u32): u32 { if n == U32_MAX then n else n + 1 }

  function Authenticate(p: Policy, s: Ses, pin: string, now: nat): Step<AuthOutcome> {
    if s.state != Authenticating then Step(s, Err(WrongState))
    else if s.nextAllowed.Some? && now < s.nextAllowed.value then Step(s, Err(RetryTooEarly))
    else if PinMatches(p.expectedPin, pin) then Step(s.(state := Ready, nextAllowed := None), Ok(AuthReady))
    else
      var attempts := SaturatingSucc(s.attempts);
      if attempts >= p.maxAuthFails then Step(CloseSession(s.(attempts := attempts)), Ok(AuthClosed))
      else if now + p.pinFailDelay > p.horizon then Step(s, Err(DelayTooLarge))
      else
        Step(s.(attempts := attempts, nextAllowed := Some(now + p.pinFailDelay)),
             Ok(Rejected(p.maxAuthFails - attempts)))
  }

  function Lift(s: Ses, o: Outcome): Step<StreamEntry> {
    Step(s.(reg := o.reg), if o.result.Ok? then Ok(o.result.value) else Err(StreamError(o.result.error)))
  }

  function OpenStream(s: Ses, kind: StreamKind, path: string): Step<StreamEntry> {
    if s.state != Ready then Step(s, Err(WrongState)) else Lift(s, Open(s.reg, kind, path))
  }

  function AcceptStream(s: Ses, id: u32, kind: StreamKind, path: string): Step<StreamEntry> {
    if s.state != Ready then Step(s, Err(WrongState)) else Lift(s, Accept(s.reg, id, kind, path))
  }

  function CloseStream(s: Ses, id: u32): Step<StreamEntry> { Lift(s, Close(s.reg, id)) }

  // ---- The session object --------------------------------------------------

  class Session {
    const policy: Policy
    const registry: StreamRegistry
    var state: SessionState
    var attempts: u32
    var nextAllowed: Option<nat>

    ghost function View(): Ses
      reads this, registry
    {
      Ses(state, attempts, nextAllowed, registry.View())
    }

    constructor (policy: Policy)
      requires ValidPolicy(policy)
      ensures this.policy == policy && fresh(registry) && View() == START
    {
      this.policy := policy;
      state, attempts, nextAllowed := Connecting, 0, None;
      registry := new StreamRegistry();
    }

    method Begin() returns (r: Result<bool, SessionError>)
      modifies this`state
      ensures Step(View(), r) == BeginAuthentication(policy, old(View()))
    {
      if state != Connecting { return Err(WrongState); }
      if policy.pinRequired {
        state := Authenticating;
        r := Ok(true);
      } else {
        state := Ready;
        r := Ok(false);
      }
    }

    method AuthRequired() returns (r: Result<(), SessionError>)
      modifies this`state
      ensures Step(View(), r) == AcceptAuthRequired(old(View()))
    {
      if state != Connecting && state != Authenticating { return Err(WrongState); }
      state := Authenticating;
      r := Ok(());
    }

    method AuthResult(success: bool) returns (r: Result<(), SessionError>)
      modifies this`nextAllowed
      ensures Step(View(), r) == AcceptAuthResult(old(View()), success)
    {
      if state != Authenticating { return Err(WrongState); }
      if success { nextAllowed := None; }
      r := Ok(());
    }

    method BecomeReady() returns (r: Result<(), SessionError>)
      modifies this`state, this`nextAllowed
      ensures Step(View(), r) == MarkReady(old(View()))
    {
      if state != Connecting && state != Authenticating { return Err(WrongState); }
      state, nextAllowed := Ready, None;
      r := Ok(());
    }

    method TryPin(pin: string, now: nat) returns (r: Result<AuthOutcome, SessionError>)
      modifies this, registry
      ensures Step(View(), r) == Authenticate(policy, old(View()), pin, now)
    {
      if state != Authenticating { return Err(WrongState); }
      if nextAllowed.Some? && now < nextAllowed.value { return Err(RetryTooEarly); }
      var matches := false;
      if policy.expectedPin.Some? {
        matches := ConstantTimePinEq(policy.expectedPin.value, pin);
      }
      if matches {
        state, nextAllowed := Ready, None;
        return Ok(AuthReady);
      }
      var next := SaturatingSucc(attempts);
      if next >= policy.maxAuthFails {
        attempts := next;
        CloseAll();
        return Ok(AuthClosed);
      }
      if now + policy.pinFailDelay > policy.horizon { return Err(DelayTooLarge); }
      attempts := next;
      nextAllowed := Some(now + policy.pinFailDelay);
      r := Ok(Rejected(policy.maxAuthFails - attempts));
    }

    method CloseAll()
      modifies this, registry
      ensures View() == CloseSession(old(View()))
    {
      registry.ClearStreams();
      state, nextAllowed := Closed, None;
    }

    method OpenOne(kind: StreamKind, path: string) returns (r: Result<StreamEntry, SessionError>)
      modifies registry
      ensures Step(View(), r) == OpenStream(old(View()), kind, path)
    {
      if state != Ready { return Err(WrongState); }
      var o := registry.OpenStream(kind, path);
      r := if o.Ok? then Ok(o.value) else Err(StreamError(o.error));
    }

    method AcceptOne(id: u32, kind: StreamKind, path: string) returns (r: Result<StreamEntry, SessionError>)
      modifies registry
      ensures Step(View(), r) == AcceptStream(old(View()), id, kind, path)
    {
      if state != Ready { return Err(WrongState); }
      var o := registry.AcceptStream(id, kind, path);
      r := if o.Ok? then Ok(o.value) else Err(StreamError(o.error));
    }

    method CloseOne(id: u32) returns (r: Result<StreamEntry, SessionError>)
      modifies registry
      ensures Step(View(), r) == CloseStream(old(View()), id)
    {
      var o := registry.CloseStream(id);
      r := if o.Ok? then Ok(o.value) else Err(StreamError(o.error));
    }
  }

  /** `Session::new`: an unusable policy gives no session. */
  method NewSession(policy: Policy) returns (r: Option<Session>)
    ensures r.Some? <==> ValidPolicy(policy)
    ensures r.Some? ==> fresh(r.value) && fresh(r.value.registry)
    ensures r.Some? ==> r.value.policy == policy && r.value.View() == START
  {
    if policy.pinRequired && policy.maxAuthFails == 0 { return None; }
    if policy.pinRequired {
      var pin := if policy.expectedPin.Some? then policy.expectedPin.value else "";
      if Blank(pin) || |pin| != PIN_LEN { return None; }
    }
    var session := new Session(policy);
    r := Some(session);
  }

  // ---- One authentication --------------------------------------------------

  /**
   * A wrong PIN that is compared is counted exactly when it is the last one allowed or the retry
   * instant is representable; otherwise nothing changes and the comparison costs nothing.
   */
  lemma WrongPinCountedExactly(p: Policy, s: Ses, pin: string, now: nat)
    requires s.state == Authenticating && (s.nextAllowed.Some? ==> s.nextAllowed.value <= now)
    requires !PinMatches(p.expectedPin, pin) && s.attempts < U32_MAX
    ensures var s' := Authenticate(p, s, pin, now).ses;
      && (s'.attempts == s.attempts + 1 <==>
            s.attempts + 1 >= p.maxAuthFails || now + p.pinFailDelay <= p.horizon)
      && (s'.attempts != s.attempts + 1 ==> s' == s)
  {
  }

  /** Which answer a PIN gets: an error that changes nothing, or one of three outcomes. */
  lemma AnswersExactly(p: Policy, s: Ses, pin: string, now: nat)
    ensures var r := Authenticate(p, s, pin, now);
      var early := s.nextAllowed.Some? && now < s.nextAllowed.value;
      var last := s.attempts + 1 >= p.maxAuthFails;
      && (r.result == Err(WrongState) <==> s.state != Authenticating)
      && (r.result == Err(RetryTooEarly) <==> s.state == Authenticating && early)
      && (s.state == Authenticating && !early ==>
            && (r.result == Ok(AuthReady) <==> PinMatches(p.expectedPin, pin))
            && (s.attempts < U32_MAX && !PinMatches(p.expectedPin, pin) ==>
                  && (r.result == Ok(AuthClosed) <==> last)
                  && (r.result == Err(DelayTooLarge) <==> !last && now + p.pinFailDelay > p.horizon)))
      && (r.result.Err? ==> r.ses == s)
      && (r.result == Ok(AuthReady) ==> r.ses == s.(state := Ready, nextAllowed := None))
      && (r.result == Ok(AuthClosed) ==> r.ses.state == Closed && r.ses.reg.active == map[])
  {
  }

  /** A rejection says how many wrong PINs are still allowed, and never that none is. */
  lemma RejectionCountsDown(p: Policy, s: Ses, pin: string, now: nat)
    ensures var r := Authenticate(p, s, pin, now);
      r.result.Ok? && r.result.value.Rejected? ==>
        r.ses.attempts + r.result.value.remaining == p.maxAuthFails && r.result.value.remaining > 0
  {
  }

  /** With an unrepresentable delay any number of wrong PINs is compared without being counted. */
  lemma {:induction false} UncountedGuesses(p: Policy, s: Ses, pins: seq<string>, now: nat)
    requires s.state == Authenticating && s.nextAllowed.None? && s.attempts + 1 < p.maxAuthFails
    requires now + p.pinFailDelay > p.horizon
    requires forall i :: 0 <= i < |pins| ==> !PinMatches(p.expectedPin, pins[i])
    ensures TryAll(p, s, pins, now) == s
  {
    if pins != [] {
      UncountedGuesses(p, s, pins[1..], now);
    }
  }

  function TryAll(p: Policy, s: Ses, pins: seq<string>, now: nat): Ses
    decreases |pins|
  {
    if pins == [] then s else TryAll(p, Authenticate(p, s, pins[0], now).ses, pins[1..], now)
  }

  // ---- Whole runs ----------------------------------------------------------

  datatype SessionOp =
    | BeginOp | AuthRequiredOp | AuthResultOp(success: bool) | MarkReadyOp
    | AuthenticateOp(pin: string, now: nat)
    | OpenStreamOp(kind: StreamKind, path: string)
    | AcceptStreamOp(id: u32, kind: StreamKind, path: string)
    | CloseStreamOp(id: u32)
    | CloseOp

  function ApplySession(p: Policy, s: Ses, op: SessionOp): Ses {
    match op
    case BeginOp => BeginAuthentication(p, s).ses
    case AuthRequiredOp => AcceptAuthRequired(s).ses
    case AuthResultOp(success) => AcceptAuthResult(s, success).ses
    case MarkReadyOp => MarkReady(s).ses
    case AuthenticateOp(pin, now) => Authenticate(p, s, pin, now).ses
    case OpenStreamOp(kind, path) => OpenStream(s, kind, path).ses
    case AcceptStreamOp(id, kind, path) => AcceptStream(s, id, kind, path).ses
    case CloseStreamOp(id) => CloseStream(s, id).ses
    case CloseOp => CloseSession(s)
  }

  function AfterSession(p: Policy, ops: seq<SessionOp>): Ses {
    if ops == [] then START else ApplySession(p, AfterSession(p, ops[..|ops| - 1]), ops[|ops| - 1])
  }

  function Rank(s: SessionState): nat {
    match s case Connecting => 0 case Authenticating => 1 case Ready => 2 case Closed => 3
  }

  /** Streams exist only while the session is ready. */
  ghost predicate StreamsOnlyWhenReady(s: Ses) {
    s.reg.active != map[] ==> s.state == Ready
  }

  /** The states in which an operation is allowed at all. */
  predicate Allowed(state: SessionState, op: SessionOp) {
    match op
    case BeginOp => state == Connecting
    case AuthRequiredOp | MarkReadyOp => state == Connecting || state == Authenticating
    case AuthResultOp(_) | AuthenticateOp(_, _) => state == Authenticating
    case OpenStreamOp(_, _) | AcceptStreamOp(_, _, _) => state == Ready
    case CloseStreamOp(_) | CloseOp => true
  }

  /** Where an operation that is allowed leads, a PIN aside. */
  function Target(p: Policy, state: SessionState, op: SessionOp): SessionState {
    match op
    case BeginOp => if p.pinRequired then Authenticating else Ready
    case AuthRequiredOp => Authenticating
    case MarkReadyOp => Ready
    case CloseOp => Closed
    case _ => state
  }

  /**
   * An operation outside its states changes nothing. Inside them it leads where it should, only a PIN
   * is counted, and only stream operations and closing touch the streams.
   */
  lemma TransitionsExactly(p: Policy, s: Ses, op: SessionOp)
    ensures var s' := ApplySession(p, s, op);
      && (!Allowed(s.state, op) ==> s' == s)
      && (Allowed(s.state, op) && !op.AuthenticateOp? ==>
            s'.state == Target(p, s.state, op) && s'.attempts == s.attempts)
      && (op.AuthenticateOp? && s.state == Authenticating ==>
            (s'.state == Ready <==>
               PinMatches(p.expectedPin, op.pin) && (s.nextAllowed.Some? ==> s.nextAllowed.value <= op.now)))
      && (s'.reg != s.reg ==>
            op.OpenStreamOp? || op.AcceptStreamOp? || op.CloseStreamOp? || s'.state == Closed)
      && (s'.nextAllowed != s.nextAllowed && s'.nextAllowed.Some? ==>
            op.AuthenticateOp? && s'.nextAllowed.value == op.now + p.pinFailDelay)
      && (op.CloseOp? || (Allowed(s.state, op) && (op.MarkReadyOp? || op == AuthResultOp(true))) ==>
            s'.nextAllowed.None?)
  {
  }

  lemma SessionStep(p: Policy, s: Ses, op: SessionOp)
    requires StreamsOnlyWhenReady(s)
    ensures var s' := ApplySession(p, s, op);
      && StreamsOnlyWhenReady(s')
      && Rank(s.state) <= Rank(s'.state)
      && (s.state == Closed ==> s'.state == Closed && s'.reg.active == map[])
  {
  }

  /** Over every run the state only moves forward, and an active stream implies a ready session. */
  lemma {:induction false} LifecycleForward(p: Policy, ops: seq<SessionOp>, i: nat)
    requires i <= |ops|
    ensures StreamsOnlyWhenReady(AfterSession(p, ops))
    ensures Rank(AfterSession(p, ops[..i]).state) <= Rank(AfterSession(p, ops).state)
  {
    if i == |ops| {
      assert ops[..i] == ops;
      if ops != [] {
        var before := ops[..|ops| - 1];
        LifecycleForward(p, before, |before|);
        SessionStep(p, AfterSession(p, before), ops[|ops| - 1]);
      }
    } else {
      var before := ops[..|ops| - 1];
      assert before[..i] == ops[..i];
      LifecycleForward(p, before, i);
      SessionStep(p, AfterSession(p, before), ops[|ops| - 1]);
    }
  }

  /** The registry operations a session run performs. */
  function RegistryOps(p: Policy, ops: seq<SessionOp>): seq<Op> {
    if ops == [] then []
    else
      var before := ops[..|ops| - 1];
      RegistryOps(p, before) + RegistryOp(p, AfterSession(p, before), ops[|ops| - 1])
  }

  function RegistryOp(p: Policy, s: Ses, op: SessionOp): seq<Op> {
    match op
    case OpenStreamOp(kind, path) => if s.state == Ready then [OpenOp(kind, path)] else []
    case AcceptStreamOp(id, kind, path) => if s.state == Ready then [AcceptOp(id, kind, path)] else []
    case CloseStreamOp(id) => [Op.CloseOp(id)]
    case CloseOp => [ClearOp]
    case AuthenticateOp(pin, now) =>
      if Authenticate(p, s, pin, now).result == Ok(AuthClosed) then [ClearOp] else []
    case _ => []
  }

  lemma RegistryStep(p: Policy, s: Ses, op: SessionOp)
    ensures var o := RegistryOp(p, s, op);
      var s' := ApplySession(p, s, op);
      |o| <= 1 && s'.reg == if o == [] then s.reg else Apply(s.reg, o[0]).reg
  {
  }

  /**
   * A session's streams are conserved over every run: its registry is that of the registry run
   * it performs, where streams admitted equal streams active plus streams closed.
   */
  lemma {:induction false} SessionConserves(p: Policy, ops: seq<SessionOp>)
    ensures After(RegistryOps(p, ops)).reg == AfterSession(p, ops).reg
    ensures Consistent(After(RegistryOps(p, ops)))
  {
    StreamsConserved(RegistryOps(p, ops));
    if ops != [] {
      hide Apply, Consistent, RegistryOp, ApplySession;
      var before, op := ops[..|ops| - 1], ops[|ops| - 1];
      SessionConserves(p, before);
      var s := AfterSession(p, before);
      RegistryStep(p, s, op);
      var trace, last := RegistryOps(p, before), RegistryOp(p, s, op);
      if last == [] {
        assert trace + last == trace;
      } else {
        assert last == [last[0]];
        AfterSnoc(trace, last[0]);
      }
    }
  }

  lemma AfterSnoc(trace: seq<Op>, op: Op)
    ensures After(trace + [op]) == Record(After(trace), op)
  {
  }
}
