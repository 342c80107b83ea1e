/** Over reliable channels, the handshake computes a simple outcome. */
module HandshakeOutcome {
  import opened Common
  import opened Registry
  import opened Session
  import opened Handshake

  datatype Setup = Setup(policy: Policy, pins: seq<string>, path: string, routing: string)

  /** A representable retry delay, PINs that are not blank, and configurations both sides accept. */
  ghost predicate Plain(c: Setup) {
    && ValidPolicy(c.policy) && c.policy.pinFailDelay <= c.policy.horizon
    && c.pins != [] && (forall i :: 0 <= i < |c.pins| ==> !Blank(c.pins[i]))
    && !Blank(c.path) && !Blank(c.routing)
  }

  function ServerConfig(c: Setup): RuntimeConfig { RuntimeConfig(Server, c.policy, [], c.path, c.routing) }

  function ClientConfig(c: Setup): RuntimeConfig {
    RuntimeConfig(Client, c.policy.(pinRequired := false), c.pins, c.path, c.routing)
  }

  // ---- The reliable link ---------------------------------------------------

  datatype Run = Run(
    client: Rt,
    server: Rt,
    toServer: seq<ControlMessage>,
    toClient: seq<ControlMessage>,
    clientVerdict: Verdict,
    serverVerdict: Verdict,
    clock: nat)

  function Begin(c: Setup): Run {
    Run(NewRt(ClientConfig(c)), NewRt(ServerConfig(c)), [Connect(c.path, PROTOCOL_VERSION)], [], Continue, Continue, 0)
  }

  /** No reaction sends more than two messages, so two successful sends mean a reliable channel. */
  const ALL_SENDS := 2

  ghost predicate ServerReceives(c: Setup, s: Run, s': Run) {
    && s.serverVerdict == Continue && s.toServer != []
    && s.clock <= s'.clock && s'.clock + c.policy.pinFailDelay <= c.policy.horizon
    && var r := ServerHandle(ServerConfig(c), s.server, s.toServer[0], s'.clock, ALL_SENDS);
       s' == s.(server := r.rt, serverVerdict := r.verdict, toServer := s.toServer[1..],
                toClient := s.toClient + r.out, clock := s'.clock)
  }

  ghost predicate ClientReceives(c: Setup, s: Run, s': Run) {
    && s.clientVerdict == Continue && s.toClient != []
    && var r := ClientHandle(s.client, s.toClient[0], ALL_SENDS);
       s' == s.(client := r.rt, clientVerdict := r.verdict, toClient := s.toClient[1..],
                toServer := s.toServer + r.out)
  }

  /** Once the peer has given up and nothing is in flight, the receive fails and the session closes. */
  ghost predicate ServerAbandoned(s: Run, s': Run) {
    && s.serverVerdict == Continue && s.toServer == [] && s.clientVerdict == Failed
    && s' == s.(server := s.server.(ses := CloseSession(s.server.ses)), serverVerdict := Failed)
  }

  ghost predicate ClientAbandoned(s: Run, s': Run) {
    && s.clientVerdict == Continue && s.toClient == [] && s.serverVerdict == Failed
    && s' == s.(client := s.client.(ses := CloseSession(s.client.ses)), clientVerdict := Failed)
  }

  ghost predicate Next(c: Setup, s: Run, s': Run) {
    ServerReceives(c, s, s') || ClientReceives(c, s, s') || ServerAbandoned(s, s') || ClientAbandoned(s, s')
  }

  /** The server handles a PIN before the retry delay has passed. */
  ghost predicate HurriedStep(c: Setup, s: Run, s': Run) {
    && ServerReceives(c, s, s') && s.toServer[0].Auth?
    && s.server.ses.nextAllowed.Some? && s'.clock < s.server.ses.nextAllowed.value
  }

  // ---- The outcome ---------------------------------------------------------

  /** No PIN before `i` is the expected one, and no two of them in a row are the same. */
  ghost predicate WrongBefore(c: Setup, i: nat) {
    && i <= |c.pins|
    && (forall j :: 0 <= j < i ==> !PinMatches(c.policy.expectedPin, c.pins[j]))
    && (forall j, k :: 0 <= j < k < i && k == j + 1 ==> c.pins[j] != c.pins[k])
  }

  ghost predicate WinsAt(c: Setup, i: nat) {
    i < |c.pins| && i < c.policy.maxAuthFails && PinMatches(c.policy.expectedPin, c.pins[i]) && WrongBefore(c, i)
  }

  /** What the handshake should decide, read off the configuration alone. */
  ghost predicate Wins(c: Setup) {
    c.policy.pinRequired ==> exists i: nat :: WinsAt(c, i)
  }

  // ---- Phases of a run -----------------------------------------------------

  datatype Phase =
    | Greeting
    | Open(left: nat)                    // no PIN needed; `left` messages still to be read
    | Asked(i: nat, resultLeft: bool)    // the client is asked for PIN `i`
    | Offered(i: nat)                    // PIN `i` is on its way
    | Granted(i: nat, left: nat)         // PIN `i` was accepted
    | Refused(i: nat, left: nat, over: bool)  // the server closed on PIN `i`: too many, or a repeat
    | OutOfPins(i: nat, noticed: bool)   // the client has no PIN `i`
    | Hurried(i: nat, noticed: bool)     // PIN `i` was handled before the retry delay had passed

  function ClientAt(c: Setup, state: SessionState, i: nat, pending: bool, ready: bool): Rt
    requires i <= |c.pins|
  {
    Rt(Ses(state, 0, None, NEW), c.pins[i..], false, pending, None, ready)
  }

  function LastPin(c: Setup, i: nat): Option<string>
    requires i <= |c.pins|
  {
    if i == 0 then None else Some(c.pins[i - 1])
  }

  /** The server waits for PIN `i`, having refused `i` PINs. */
  ghost predicate ServerWaits(c: Setup, s: Run, i: nat)
    requires i <= |c.pins|
  {
    && s.serverVerdict == Continue && i < c.policy.maxAuthFails
    && s.server == Rt(Ses(Authenticating, i, s.server.ses.nextAllowed, NEW), [], true, false, LastPin(c, i), false)
    && (s.server.ses.nextAllowed.Some? ==> i > 0 && s.server.ses.nextAllowed.value <= s.clock + c.policy.pinFailDelay)
    && s.server.ses.attempts < U32_MAX
  }

  ghost predicate At(c: Setup, s: Run, ph: Phase) {
    match ph
    case Greeting => s == Begin(c)
    case Open(left) =>
      && !c.policy.pinRequired && left <= 1 && s.toServer == []
      && s.server.ses.state == Ready && s.serverVerdict == Finished
      && s.toClient == (if left == 1 then [ReadyMessage(c.routing)] else [])
      && s.client == ClientAt(c, if left == 1 then Connecting else Ready, 0, false, left == 0)
      && s.clientVerdict == if left == 1 then Continue else Finished
    case Asked(i, resultLeft) =>
      && c.policy.pinRequired && WrongBefore(c, i) && ServerWaits(c, s, i)
      && (resultLeft ==> i > 0) && s.toServer == [] && s.clientVerdict == Continue
      && s.toClient == (if resultLeft then [AuthResult(false), AuthRequired] else [AuthRequired])
      && s.client == ClientAt(c, if i == 0 then Connecting else Authenticating, i, resultLeft, false)
    case Offered(i) =>
      && c.policy.pinRequired && i < |c.pins| && WrongBefore(c, i) && ServerWaits(c, s, i)
      && s.toServer == [Auth(c.pins[i])] && s.toClient == [] && s.clientVerdict == Continue
      && s.client == ClientAt(c, Authenticating, i + 1, true, false)
    case Granted(i, left) =>
      && c.policy.pinRequired && WinsAt(c, i) && left <= 2 && s.toServer == []
      && s.server.ses.state == Ready && s.serverVerdict == Finished
      && s.toClient == (if left == 2 then [AuthResult(true), ReadyMessage(c.routing)]
                        else if left == 1 then [ReadyMessage(c.routing)] else [])
      && s.client == ClientAt(c, if left == 0 then Ready else Authenticating, i + 1, left == 2, left == 0)
      && s.clientVerdict == if left == 0 then Finished else Continue
    case Refused(i, left, over) =>
      && c.policy.pinRequired && i < |c.pins| && i < c.policy.maxAuthFails && WrongBefore(c, i)
      && (if over then i + 1 == c.policy.maxAuthFails && !PinMatches(c.policy.expectedPin, c.pins[i])
          else i > 0 && c.pins[i] == c.pins[i - 1])
      && s.server.ses.state == Closed && s.serverVerdict == Failed
      && left <= 2 && (left == 2 ==> over)
      && s.toClient == (if left == 2 then [AuthResult(false), ErrorMessage]
                        else if left == 1 then [ErrorMessage] else [])
      && (if left == 0 then s.client.ses.state == Closed && s.clientVerdict == Failed
          else s.clientVerdict == Continue && s.client == ClientAt(c, Authenticating, i + 1, left == 2 || !over, false))
    case OutOfPins(i, noticed) =>
      && c.policy.pinRequired && i == |c.pins| && WrongBefore(c, i) && i < c.policy.maxAuthFails
      && s.toServer == [] && s.toClient == []
      && s.client.ses.state == Authenticating && s.clientVerdict == Failed
      && (if noticed then s.server.ses.state == Closed && s.serverVerdict == Failed else ServerWaits(c, s, i))
    case Hurried(i, noticed) =>
      && c.policy.pinRequired && 0 < i < |c.pins| && WrongBefore(c, i) && s.toServer == [] && s.toClient == []
      && s.server.ses.state == Authenticating && s.serverVerdict == Failed
      && (if noticed then s.client.ses.state == Closed && s.clientVerdict == Failed
          else s.clientVerdict == Continue && s.client == ClientAt(c, Authenticating, i + 1, true, false))
  }

  /** An upper bound on the steps still to come. */
  function Rank(c: Setup, ph: Phase): int {
    match ph
    case Greeting => 3 * |c.pins| + 5
    case Open(left) => left
    case Asked(i, resultLeft) => 3 * (|c.pins| - i) + (if resultLeft then 4 else 3)
    case Offered(i) => 3 * (|c.pins| - i) + 2
    case Granted(_, left) => left
    case Refused(_, left, _) => left
    case OutOfPins(_, noticed) => if noticed then 0 else 1
    case Hurried(_, noticed) => if noticed then 0 else 1
  }

  // ---- One step ------------------------------------------------------------

  lemma GreetingStep(c: Setup, s: Run, s': Run) returns (ph: Phase)
    requires Plain(c) && At(c, s, Greeting) && Next(c, s, s')
    ensures ph == if c.policy.pinRequired then Asked(0, false) else Open(1)
    ensures At(c, s', ph) && Rank(c, ph) < Rank(c, Greeting)
    ensures !HurriedStep(c, s, s') && !ph.Hurried?
  {
    hide Blank;
    assert c.pins[0..] == c.pins;
    assert s'.toServer == [];
    ph := if c.policy.pinRequired then Asked(0, false) else Open(1);
  }

  lemma AskedStep(c: Setup, s: Run, s': Run, i: nat, resultLeft: bool) returns (ph: Phase)
    requires Plain(c) && At(c, s, Asked(i, resultLeft)) && Next(c, s, s')
    ensures ph == if resultLeft then Asked(i, false) else if i == |c.pins| then OutOfPins(i, false) else Offered(i)
    ensures At(c, s', ph) && Rank(c, ph) < Rank(c, Asked(i, resultLeft))
    ensures !HurriedStep(c, s, s') && !ph.Hurried?
  {
    hide Blank, ServerHandle, FirstFree;
    assert s'.toServer == [] || s'.toServer == s.toServer + [Auth(c.pins[i])];
    if resultLeft {
      assert s'.toClient == [AuthRequired];
      ph := Asked(i, false);
    } else if i == |c.pins| {
      assert s'.toClient == [];
      ph := OutOfPins(i, false);
    } else {
      assert c.pins[i..][1..] == c.pins[i + 1..];
      assert s'.toClient == [];
      ph := Offered(i);
    }
  }

  ghost predicate TooEarly(s: Run, now: nat) {
    s.server.ses.nextAllowed.Some? && now < s.server.ses.nextAllowed.value
  }

  /** The server's answer to PIN `i`, in its five cases. */
  lemma ServerAnswers(c: Setup, s: Run, i: nat, now: nat)
    requires Plain(c) && c.policy.pinRequired && i < |c.pins| && ServerWaits(c, s, i)
    requires s.clock <= now && now + c.policy.pinFailDelay <= c.policy.horizon
    ensures var r := ServerHandle(ServerConfig(c), s.server, Auth(c.pins[i]), now, ALL_SENDS);
      if i > 0 && c.pins[i] == c.pins[i - 1] then
        r.out == [ErrorMessage] && r.verdict == Failed && r.rt.ses.state == Closed
      else if TooEarly(s, now) then
        r.out == [] && r.verdict == Failed && r.rt.ses.state == Authenticating
      else if PinMatches(c.policy.expectedPin, c.pins[i]) then
        r.out == [AuthResult(true), ReadyMessage(c.routing)] && r.verdict == Finished && r.rt.ses.state == Ready
      else if i + 1 >= c.policy.maxAuthFails then
        r.out == [AuthResult(false), ErrorMessage] && r.verdict == Failed && r.rt.ses.state == Closed
      else
        && r.out == [AuthResult(false), AuthRequired] && r.verdict == Continue
        && r.rt == Rt(Ses(Authenticating, i + 1, Some(now + c.policy.pinFailDelay), NEW), [], true, false,
                      Some(c.pins[i]), false)
  {
  }

  lemma WrongOnceMore(c: Setup, i: nat)
    requires i < |c.pins| && WrongBefore(c, i)
    requires !PinMatches(c.policy.expectedPin, c.pins[i]) && (i > 0 ==> c.pins[i] != c.pins[i - 1])
    ensures WrongBefore(c, i + 1)
  {
  }

  /** Phases that a hurried step can lead to; none of them ends well. */
  ghost predicate Spoiled(ph: Phase) { ph.Hurried? || ph.Refused? }

  /** The phase that follows the server's answer to PIN `i`. */
  ghost function AfterOffer(c: Setup, s: Run, now: nat, i: nat): Phase
    requires i < |c.pins|
  {
    if i > 0 && c.pins[i] == c.pins[i - 1] then Refused(i, 1, false)
    else if TooEarly(s, now) then Hurried(i, false)
    else if PinMatches(c.policy.expectedPin, c.pins[i]) then Granted(i, 2)
    else if i + 1 >= c.policy.maxAuthFails then Refused(i, 2, true)
    else Asked(i + 1, true)
  }

  lemma OfferedStep(c: Setup, s: Run, s': Run, i: nat) returns (ph: Phase)
    requires Plain(c) && At(c, s, Offered(i)) && Next(c, s, s')
    ensures At(c, s', ph) && Rank(c, ph) < Rank(c, Offered(i))
    ensures if HurriedStep(c, s, s') then Spoiled(ph) else !ph.Hurried?
    ensures ph == AfterOffer(c, s, s'.clock, i)
  {
    hide Blank, ClientHandle, ServerHandle;
    assert ServerReceives(c, s, s');
    hide Next, WrongBefore, PinMatches;
    ServerAnswers(c, s, i, s'.clock);
    assert s'.toServer == [];
    var r := ServerHandle(ServerConfig(c), s.server, Auth(c.pins[i]), s'.clock, ALL_SENDS);
    assert s'.toClient == [] + r.out == r.out;
    ph := AfterOffer(c, s, s'.clock, i);
    if ph.Asked? {
      WrongOnceMore(c, i);
    }
  }

  lemma RefusedStep(c: Setup, s: Run, s': Run, i: nat, left: nat, over: bool) returns (next: Phase)
    requires Plain(c) && At(c, s, Refused(i, left, over)) && Next(c, s, s')
    ensures next == Refused(i, left - 1, over) && left > 0 && At(c, s', next) && !HurriedStep(c, s, s')
  {
    hide Blank, ServerHandle, WrongBefore, PinMatches;
    next := Refused(i, left - 1, over);
  }

  lemma ClosingStep(c: Setup, s: Run, s': Run, ph: Phase) returns (next: Phase)
    requires Plain(c) && At(c, s, ph) && Next(c, s, s')
    requires !ph.Greeting? && !ph.Asked? && !ph.Offered?
    ensures At(c, s', next) && Rank(c, next) < Rank(c, ph)
    ensures !HurriedStep(c, s, s') && (Spoiled(next) <==> Spoiled(ph)) && (next.Hurried? <==> ph.Hurried?)
  {
    hide Blank, ServerHandle, WrongBefore;
    match ph
    case Open(left) => next := Open(left - 1);
    case Granted(i, left) => next := Granted(i, left - 1);
    case Refused(i, left, over) => next := RefusedStep(c, s, s', i, left, over);
    case OutOfPins(i, _) => next := OutOfPins(i, true);
    case Hurried(i, _) => next := Hurried(i, true);
  }

  lemma PhaseStep(c: Setup, s: Run, s': Run, ph: Phase) returns (next: Phase)
    requires Plain(c) && At(c, s, ph) && Next(c, s, s')
    ensures At(c, s', next) && Rank(c, next) < Rank(c, ph)
    ensures Spoiled(ph) || HurriedStep(c, s, s') ==> Spoiled(next)
    ensures next.Hurried? ==> ph.Hurried? || HurriedStep(c, s, s')
  {
    hide At, Next, Rank, HurriedStep;
    match ph
    case Greeting => next := GreetingStep(c, s, s');
    case Asked(i, resultLeft) => next := AskedStep(c, s, s', i, resultLeft);
    case Offered(i) => next := OfferedStep(c, s, s', i);
    case _ => next := ClosingStep(c, s, s', ph);
  }

  // ---- Whole runs ----------------------------------------------------------

  ghost predicate IsRun(c: Setup, run: seq<Run>) {
    run != [] && run[0] == Begin(c) && forall k, m :: 0 <= k < m < |run| && m == k + 1 ==> Next(c, run[k], run[m])
  }

  /** No step is possible any more. */
  ghost predicate Stuck(c: Setup, s: Run) {
    forall s' :: !Next(c, s, s')
  }

  /** Some PIN of the run was handled before the retry delay had passed. */
  ghost predicate HurriedRun(c: Setup, run: seq<Run>) {
    exists k, m :: 0 <= k < m < |run| && m == k + 1 && HurriedStep(c, run[k], run[m])
  }

  lemma HurriedLonger(c: Setup, run: seq<Run>)
    requires |run| > 1
    ensures var n := |run| - 1;
      HurriedRun(c, run) <==> HurriedRun(c, run[..n]) || HurriedStep(c, run[n - 1], run[n])
  {
  }

  lemma {:induction false} RunPhase(c: Setup, run: seq<Run>) returns (ph: Phase)
    requires Plain(c) && IsRun(c, run)
    ensures var s := run[|run| - 1];
      && At(c, s, ph) && s.clock + c.policy.pinFailDelay <= c.policy.horizon
      && |run| - 1 + Rank(c, ph) <= Rank(c, Greeting)
    ensures (HurriedRun(c, run) ==> Spoiled(ph)) && (ph.Hurried? ==> HurriedRun(c, run))
  {
    if |run| == 1 {
      ph := Greeting;
    } else {
      hide At, ServerHandle, ClientHandle, Rank, HurriedRun, HurriedStep;
      var before := run[..|run| - 1];
      assert before[|before| - 1] == run[|run| - 2];
      ph := RunPhase(c, before);
      ph := PhaseStep(c, run[|run| - 2], run[|run| - 1], ph);
      HurriedLonger(c, run);
    }
  }

  /** Both sides have returned, both ready. */
  ghost predicate BothReady(s: Run) {
    && s.clientVerdict == Finished && s.client.ses.state == Ready
    && s.serverVerdict == Finished && s.server.ses.state == Ready
  }

  /** Both sides have returned an error, and neither is ready. */
  ghost predicate BothFailed(s: Run) {
    && s.clientVerdict == Failed && s.client.ses.state != Ready
    && s.serverVerdict == Failed && s.server.ses.state != Ready
  }

  /** A phase that is not the last of its kind has a next step. */
  lemma Progress(c: Setup, s: Run, ph: Phase)
    requires Plain(c) && At(c, s, ph) && s.clock + c.policy.pinFailDelay <= c.policy.horizon
    ensures Stuck(c, s) ==> BothReady(s) || BothFailed(s)
  {
    hide ServerHandle, ClientHandle;
    if s.serverVerdict == Continue && s.toServer != [] {
      var r := ServerHandle(ServerConfig(c), s.server, s.toServer[0], s.clock, ALL_SENDS);
      assert Next(c, s, s.(server := r.rt, serverVerdict := r.verdict, toServer := s.toServer[1..],
                           toClient := s.toClient + r.out));
    }
    if s.clientVerdict == Continue && s.toClient != [] {
      var r := ClientHandle(s.client, s.toClient[0], ALL_SENDS);
      assert Next(c, s, s.(client := r.rt, clientVerdict := r.verdict, toClient := s.toClient[1..],
                           toServer := s.toServer + r.out));
    }
    if s.clientVerdict == Continue && s.toClient == [] && s.serverVerdict == Failed {
      assert Next(c, s, s.(client := s.client.(ses := CloseSession(s.client.ses)), clientVerdict := Failed));
    }
    if s.serverVerdict == Continue && s.toServer == [] && s.clientVerdict == Failed {
      assert Next(c, s, s.(server := s.server.(ses := CloseSession(s.server.ses)), serverVerdict := Failed));
    }
  }

  /** How a finished phase relates to the outcome read off the configuration. */
  lemma PhaseDecides(c: Setup, s: Run, ph: Phase)
    requires Plain(c) && At(c, s, ph)
    ensures BothReady(s) ==> Wins(c) && !Spoiled(ph)
    ensures BothFailed(s) ==> !Wins(c) || ph.Hurried?
  {
  }

  /**
   * Every run ends: it has at most `3 * |pins| + 5` steps, it can only stop with both sides having
   * returned, and then both are ready exactly when no PIN was handled before its retry delay had
   * passed and some PIN among the first `max_auth_fails` is the first to be the expected one with no
   * two equal PINs in a row before it. Otherwise both return an error and neither is ready.
   */
  lemma HandshakeComputesOutcome(c: Setup, run: seq<Run>)
    requires Plain(c) && IsRun(c, run)
    ensures |run| - 1 <= 3 * |c.pins| + 5
    ensures var s := run[|run| - 1];
      Stuck(c, s) ==> (if Wins(c) && !HurriedRun(c, run) then BothReady(s) else BothFailed(s))
  {
    var s := run[|run| - 1];
    var ph := RunPhase(c, run);
    assert Rank(c, ph) >= 0;
    hide At, IsRun, Stuck, Wins, HurriedRun;
    Progress(c, s, ph);
    PhaseDecides(c, s, ph);
  }

  lemma NoDelayStep(c: Setup, s: Run, s': Run, ph: Phase)
    requires Plain(c) && At(c, s, ph) && c.policy.pinFailDelay == 0
    ensures !HurriedStep(c, s, s')
  {
    hide ServerHandle, ClientHandle, WrongBefore, Blank;
  }

  /** With no retry delay no run is hurried. */
  lemma {:induction false} NoDelayNoHurry(c: Setup, run: seq<Run>)
    requires Plain(c) && IsRun(c, run) && c.policy.pinFailDelay == 0
    ensures !HurriedRun(c, run)
  {
    if |run| > 1 {
      hide HurriedRun, HurriedStep, At, Next;
      var n := |run| - 1;
      NoDelayNoHurry(c, run[..n]);
      HurriedLonger(c, run);
      var ph := RunPhase(c, run[..n]);
      NoDelayStep(c, run[n - 1], run[n], ph);
    }
  }

  // ---- When the PIN list alone decides -------------------------------------

  function ServerNext(c: Setup, s: Run): Run
    requires s.toServer != []
  {
    var r := ServerHandle(ServerConfig(c), s.server, s.toServer[0], s.clock, ALL_SENDS);
    s.(server := r.rt, serverVerdict := r.verdict, toServer := s.toServer[1..], toClient := s.toClient + r.out)
  }

  function ClientNext(s: Run): Run
    requires s.toClient != []
  {
    var r := ClientHandle(s.client, s.toClient[0], ALL_SENDS);
    s.(client := r.rt, clientVerdict := r.verdict, toClient := s.toClient[1..], toServer := s.toServer + r.out)
  }

  ghost predicate RunTo(c: Setup, run: seq<Run>, ph: Phase) {
    IsRun(c, run) && At(c, run[|run| - 1], ph) && run[|run| - 1].clock == 0
  }

  lemma RunOn(c: Setup, run: seq<Run>, s: Run)
    requires IsRun(c, run) && Next(c, run[|run| - 1], s)
    ensures IsRun(c, run + [s])
  {
    hide Next;
  }

  /** The run in which the clock stands still, up to the first PIN. */
  lemma ToFirstOffer(c: Setup) returns (run: seq<Run>)
    requires Plain(c) && c.policy.pinRequired
    ensures RunTo(c, run, Offered(0))
  {
    hide ServerHandle, ClientHandle, IsRun;
    var s0 := Begin(c);
    assert IsRun(c, [s0]) by { RunOfOne(c); }
    var s1 := ServerNext(c, s0);
    assert Next(c, s0, s1);
    var ph := GreetingStep(c, s0, s1);
    RunOn(c, [s0], s1);
    var s2 := ClientNext(s1);
    assert Next(c, s1, s2);
    ph := AskedStep(c, s1, s2, 0, false);
    RunOn(c, [s0] + [s1], s2);
    run := [s0] + [s1] + [s2];
  }

  lemma RunOfOne(c: Setup)
    ensures IsRun(c, [Begin(c)])
  {
  }

  /** From there to the second PIN, the first being wrong and not the last one allowed. */
  lemma ToSecondOffer(c: Setup) returns (run: seq<Run>)
    requires Plain(c) && c.policy.pinRequired && |c.pins| > 1 && c.policy.maxAuthFails > 1
    requires !PinMatches(c.policy.expectedPin, c.pins[0])
    ensures RunTo(c, run, Offered(1)) && TooEarlyAfter(c, run[|run| - 1])
  {
    hide ServerHandle, ClientHandle, WrongBefore;
    var first := ToFirstOffer(c);
    var s2 := first[|first| - 1];
    var s3 := ServerNext(c, s2);
    assert Next(c, s2, s3);
    ServerAnswers(c, s2, 0, 0);
    var ph := OfferedStep(c, s2, s3, 0);
    RunOn(c, first, s3);
    var s4 := ClientNext(s3);
    assert Next(c, s3, s4);
    ph := AskedStep(c, s3, s4, 1, true);
    RunOn(c, first + [s3], s4);
    var s5 := ClientNext(s4);
    assert Next(c, s4, s5);
    ph := AskedStep(c, s4, s5, 1, false);
    RunOn(c, first + [s3] + [s4], s5);
    run := first + [s3] + [s4] + [s5];
  }

  /** The next PIN is allowed one retry delay from the start. */
  ghost predicate TooEarlyAfter(c: Setup, s: Run) { s.server.ses.nextAllowed == Some(c.policy.pinFailDelay) }

  lemma RankNatural(c: Setup, s: Run, ph: Phase)
    requires At(c, s, ph)
    ensures Rank(c, ph) >= 0
  {
  }

  lemma LastPhaseStuck(c: Setup, s: Run, ph: Phase)
    requires Plain(c) && At(c, s, ph) && Rank(c, ph) == 0
    ensures Stuck(c, s)
  {
    hide At, Rank, Next;
    forall s' ensures !Next(c, s, s') {
      if Next(c, s, s') {
        var next := PhaseStep(c, s, s', ph);
        RankNatural(c, s', next);
      }
    }
  }

  /** A second PIN that arrives at once, before the delay has passed, ends the handshake for both. */
  lemma SecondPinHurried(c: Setup) returns (run: seq<Run>)
    requires Plain(c) && c.policy.pinRequired && |c.pins| > 1 && c.policy.maxAuthFails > 1
    requires !PinMatches(c.policy.expectedPin, c.pins[0]) && c.pins[0] != c.pins[1] && c.policy.pinFailDelay > 0
    ensures IsRun(c, run) && Stuck(c, run[|run| - 1]) && BothFailed(run[|run| - 1])
  {
    hide ServerHandle, ClientHandle, WrongBefore, Stuck;
    var before := ToSecondOffer(c);
    var s5 := before[|before| - 1];
    var s6 := ServerNext(c, s5);
    assert Next(c, s5, s6);
    var ph := OfferedStep(c, s5, s6, 1);
    assert ph == Hurried(1, false);
    RunOn(c, before, s6);
    var s7 := s6.(client := s6.client.(ses := CloseSession(s6.client.ses)), clientVerdict := Failed);
    assert Next(c, s6, s7);
    ph := ClosingStep(c, s6, s7, ph);
    RunOn(c, before + [s6], s7);
    run := before + [s6] + [s7];
    assert At(c, s7, Hurried(1, true));
    LastPhaseStuck(c, s7, Hurried(1, true));
  }

  /** No run is hurried when the first PIN is the right one, for there is no retry. */
  lemma FirstPinDecides(c: Setup, run: seq<Run>)
    requires Plain(c) && IsRun(c, run) && c.policy.pinRequired
    requires WinsAt(c, 0)
    ensures !HurriedRun(c, run)
  {
    var ph := RunPhase(c, run);
    hide IsRun, HurriedRun;
    assert PinMatches(c.policy.expectedPin, c.pins[0]);
    assert !Spoiled(ph);
  }

  lemma NoPinNoHurry(c: Setup, run: seq<Run>)
    requires Plain(c) && IsRun(c, run) && !c.policy.pinRequired
    ensures !HurriedRun(c, run)
  {
    var ph := RunPhase(c, run);
    hide IsRun, HurriedRun;
    assert !Spoiled(ph);
  }

  ghost predicate Decided(c: Setup, run: seq<Run>)
    requires run != []
  {
    if Wins(c) then BothReady(run[|run| - 1]) else BothFailed(run[|run| - 1])
  }

  /** Every run that ends, ends as the PIN list says. */
  ghost predicate ListDecides(c: Setup) {
    forall run :: IsRun(c, run) && Stuck(c, run[|run| - 1]) ==> Decided(c, run)
  }

  /**
   * The PIN list alone decides every run exactly when no PIN is required, there is no retry delay,
   * the first PIN is the right one, or the list cannot win at all.
   */
  lemma ListDecidesExactly(c: Setup)
    requires Plain(c)
    ensures ListDecides(c) <==>
      !c.policy.pinRequired || c.policy.pinFailDelay == 0 || PinMatches(c.policy.expectedPin, c.pins[0]) || !Wins(c)
  {
    hide Stuck, Next, HurriedRun, BothReady, BothFailed, WrongBefore;
    if c.policy.pinRequired && c.policy.pinFailDelay > 0 && Wins(c) && !PinMatches(c.policy.expectedPin, c.pins[0]) {
      SecondDiffers(c);
      var run := SecondPinHurried(c);
      NotBoth(run[|run| - 1]);
      assert !Decided(c, run);
    } else {
      forall run | IsRun(c, run) && Stuck(c, run[|run| - 1]) ensures Decided(c, run) {
        HandshakeComputesOutcome(c, run);
        if !c.policy.pinRequired {
          NoPinNoHurry(c, run);
        } else if c.policy.pinFailDelay == 0 {
          NoDelayNoHurry(c, run);
        } else if PinMatches(c.policy.expectedPin, c.pins[0]) {
          FirstWins(c);
          FirstPinDecides(c, run);
        }
      }
    }
  }

  lemma NotBoth(s: Run)
    ensures !(BothReady(s) && BothFailed(s))
  {
  }

  lemma FirstWins(c: Setup)
    requires Plain(c) && c.policy.pinRequired && PinMatches(c.policy.expectedPin, c.pins[0])
    ensures WinsAt(c, 0)
  {
  }

  /** A list that wins, but not with its first PIN, goes on with another one. */
  lemma SecondDiffers(c: Setup)
    requires Plain(c) && c.policy.pinRequired && Wins(c) && !PinMatches(c.policy.expectedPin, c.pins[0])
    ensures |c.pins| > 1 && c.policy.maxAuthFails > 1 && c.pins[0] != c.pins[1]
  {
    var i: nat :| WinsAt(c, i);
    if i > 1 {
      assert c.pins[0] != c.pins[1];
    }
  }

  /** Two PINs of which the second is right, a delay of one and a clock that stands still. */
  const HASTY := Setup(Policy(true, 3, 1, Some("123456"), 10), ["000000", "123456"], "/", "r")

  lemma HastyRunFails() returns (run: seq<Run>)
    ensures Plain(HASTY) && Wins(HASTY)
    ensures IsRun(HASTY, run) && Stuck(HASTY, run[|run| - 1]) && BothFailed(run[|run| - 1])
  {
    assert "000000"[0] == '0' && "123456"[0] == '1' && "/"[0] == '/' && "r"[0] == 'r';
    assert WinsAt(HASTY, 1);
    run := SecondPinHurried(HASTY);
  }
}
