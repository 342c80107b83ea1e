/** What every run of the handshake keeps: authentication by the server, agreement of both sides. */
module HandshakeRuns {
  import opened Common
  import opened Session
  import opened Handshake

  // ---- The server against any peer -----------------------------------------

  /** The server after any messages at any times, even ones handled after it reported an error. */
  function ServerAfter(c: RuntimeConfig, events: seq<Event>): Rt {
    if events == [] then NewRt(c)
    else
      var e := events[|events| - 1];
      ServerHandle(c, ServerAfter(c, events[..|events| - 1]), e.message, e.now, e.sends).rt
  }

  /** A PIN that was compared with the expected one, and when. */
  datatype Comparison = Comparison(pin: string, now: nat)

  /** The message reaches the comparison: right state, not a repeat, not too early. */
  predicate Compares(rt: Rt, e: Event) {
    && e.message.Auth?
    && rt.ses.state == Authenticating
    && rt.lastPin != Some(e.message.pin)
    && (rt.ses.nextAllowed.Some? ==> rt.ses.nextAllowed.value <= e.now)
  }

  function Comparisons(c: RuntimeConfig, events: seq<Event>): seq<Comparison> {
    if events == [] then []
    else
      var before, e := events[..|events| - 1], events[|events| - 1];
      Comparisons(c, before)
        + if Compares(ServerAfter(c, before), e) then [Comparison(e.message.pin, e.now)] else []
  }

  ghost predicate AllWrong(p: Policy, log: seq<Comparison>) {
    forall i :: 0 <= i < |log| ==> !PinMatches(p.expectedPin, log[i].pin)
  }

  ghost predicate Spaced(p: Policy, log: seq<Comparison>) {
    forall i, j :: 0 <= i < j < |log| ==> log[i].now + p.pinFailDelay <= log[j].now
  }

  /** Every comparison but perhaps the last was wrong, and there were not too many. */
  ghost predicate Attempts(p: Policy, s: Ses, log: seq<Comparison>) {
    && Spaced(p, log)
    && (log != [] ==> AllWrong(p, log[..|log| - 1]))
    && |log| <= p.maxAuthFails
    && (s.state == Connecting ==> log == [] && s.attempts == 0 && s.nextAllowed.None?)
    && (s.state == Authenticating ==>
         && AllWrong(p, log) && s.attempts == |log| < p.maxAuthFails
         && s.nextAllowed == if log == [] then None else Some(log[|log| - 1].now + p.pinFailDelay))
    && (s.state == Ready ==> log != [] && PinMatches(p.expectedPin, log[|log| - 1].pin))
  }

  /** After every comparison the retry instant is representable. */
  ghost predicate ClocksFit(p: Policy, log: seq<Comparison>) {
    forall i :: 0 <= i < |log| ==> log[i].now + p.pinFailDelay <= p.horizon
  }

  /** The session after one message: closed, or moved by the one call the message leads to. */
  lemma ServerSession(c: RuntimeConfig, rt: Rt, e: Event)
    ensures var s, s' := rt.ses, ServerHandle(c, rt, e.message, e.now, e.sends).rt.ses;
      || s'.state == Closed
      || (Compares(rt, e) && s' == Authenticate(c.policy, s, e.message.pin, e.now).ses)
      || (!Compares(rt, e) && s' == s)
      || (e.message.Connect? && s.state == Connecting && s' == BeginAuthentication(c.policy, s).ses)
  {
    hide Registry.Clear;
  }

  /** What is left of `Attempts` when a message may have ended the loop in mid-comparison. */
  ghost predicate Bounded(p: Policy, state: SessionState, log: seq<Comparison>) {
    && Spaced(p, log) && |log| <= p.maxAuthFails
    && (log != [] ==> AllWrong(p, log[..|log| - 1]))
    && (state == Ready ==> log != [] && PinMatches(p.expectedPin, log[|log| - 1].pin))
  }

  lemma AttemptsBounded(p: Policy, s: Ses, log: seq<Comparison>)
    requires Attempts(p, s, log)
    ensures Bounded(p, s.state, log) && Bounded(p, Closed, log)
  {
  }

  /** A comparison keeps the books, wholly when its retry instant is representable. */
  lemma CompareKeeps(p: Policy, s: Ses, pin: string, now: nat, log: seq<Comparison>)
    requires ValidPolicy(p) && p.pinRequired && Attempts(p, s, log) && s.state == Authenticating
    requires s.nextAllowed.Some? ==> s.nextAllowed.value <= now
    ensures var s', log' := Authenticate(p, s, pin, now).ses, log + [Comparison(pin, now)];
      && Bounded(p, s'.state, log') && Bounded(p, Closed, log')
      && (now + p.pinFailDelay <= p.horizon ==> Attempts(p, s', log'))
  {
    LongerLog(p, log, Comparison(pin, now));
    hide Blank, Registry.Clear, Spaced, AllWrong;
  }

  lemma LongerLog(p: Policy, log: seq<Comparison>, x: Comparison)
    requires Spaced(p, log) && (log != [] ==> log[|log| - 1].now + p.pinFailDelay <= x.now)
    ensures Spaced(p, log + [x]) && (log + [x])[..|log|] == log
    ensures AllWrong(p, log) && !PinMatches(p.expectedPin, x.pin) ==> AllWrong(p, log + [x])
  {
    hide PinMatches;
  }

  lemma ClosedBooks(p: Policy, s: Ses, log: seq<Comparison>)
    requires s.state == Closed && Bounded(p, Closed, log)
    ensures Attempts(p, s, log)
  {
  }

  lemma BeginKeeps(p: Policy, s: Ses, log: seq<Comparison>)
    requires ValidPolicy(p) && p.pinRequired && Attempts(p, s, log) && s.state == Connecting
    ensures Attempts(p, BeginAuthentication(p, s).ses, log)
  {
  }

  lemma AttemptsStep(c: RuntimeConfig, rt: Rt, e: Event, log: seq<Comparison>)
    requires ValidPolicy(c.policy) && c.policy.pinRequired && Attempts(c.policy, rt.ses, log)
    requires Compares(rt, e) ==> e.now + c.policy.pinFailDelay <= c.policy.horizon
    ensures var log' := log + if Compares(rt, e) then [Comparison(e.message.pin, e.now)] else [];
      Attempts(c.policy, ServerHandle(c, rt, e.message, e.now, e.sends).rt.ses, log')
  {
    var s' := ServerHandle(c, rt, e.message, e.now, e.sends).rt.ses;
    ServerSession(c, rt, e);
    AttemptsBounded(c.policy, rt.ses, log);
    if rt.ses.state == Connecting { BeginKeeps(c.policy, rt.ses, log); }
    hide ServerHandle, Attempts, Bounded, Authenticate, BeginAuthentication, ValidPolicy;
    if Compares(rt, e) {
      CompareKeeps(c.policy, rt.ses, e.message.pin, e.now, log);
      if s'.state == Closed { ClosedBooks(c.policy, s', log + [Comparison(e.message.pin, e.now)]); }
    } else {
      assert log + [] == log;
      if s'.state == Closed { ClosedBooks(c.policy, s', log); }
    }
  }

  /**
   * Against any messages at any times, and even if messages are still handled after an error: the
   * server has compared at most `max_auth_fails` PINs, all but the last of them wrong, successive
   * ones at least the retry delay apart, and it is ready only if the last one is the expected PIN.
   */
  lemma {:induction false} ServerAttempts(c: RuntimeConfig, events: seq<Event>)
    requires ValidPolicy(c.policy) && c.policy.pinRequired && ClocksFit(c.policy, Comparisons(c, events))
    ensures Attempts(c.policy, ServerAfter(c, events).ses, Comparisons(c, events))
  {
    if events != [] {
      hide ServerHandle, Attempts, Compares, ValidPolicy;
      var before, e := events[..|events| - 1], events[|events| - 1];
      var log, log' := Comparisons(c, before), Comparisons(c, events);
      assert forall i :: 0 <= i < |log| ==> log[i] == log'[i];
      assert Compares(ServerAfter(c, before), e) ==> log'[|log|].now == e.now;
      ServerAttempts(c, before);
      AttemptsStep(c, ServerAfter(c, before), e, log);
    } else {
      assert Attempts(c.policy, NewRt(c).ses, []);
    }
  }

  /** A Connect the server accepts: a path, and the protocol version or none. */
  predicate GoodConnect(m: ControlMessage) {
    m.Connect? && !Blank(m.path) && (m.version == 0 || m.version == PROTOCOL_VERSION)
  }

  ghost predicate NoConnect(events: seq<Event>) {
    forall i :: 0 <= i < |events| ==> !events[i].message.Connect?
  }

  /** The first Connect is at `i`, and it is acceptable. */
  ghost predicate GreetedAt(events: seq<Event>, i: nat) {
    i < |events| && GoodConnect(events[i].message) && NoConnect(events[..i])
  }

  ghost predicate Connected(events: seq<Event>) {
    exists i: nat :: GreetedAt(events, i)
  }

  /** An acceptable first Connect precedes an Auth with this PIN at this time. */
  ghost predicate ConnectThenAuth(events: seq<Event>, x: Comparison) {
    exists i: nat, j: nat :: GreetedAt(events, i) && AuthAfter(events, i, j, x)
  }

  ghost predicate AuthAfter(events: seq<Event>, i: nat, j: nat, x: Comparison) {
    i < j < |events| && events[j].message == Auth(x.pin) && events[j].now == x.now
  }

  lemma GreetedLonger(events: seq<Event>, more: seq<Event>, i: nat)
    requires GreetedAt(events, i)
    ensures GreetedAt(events + more, i)
  {
    assert (events + more)[..i] == events[..i];
  }

  lemma MoreEvents(events: seq<Event>, more: seq<Event>, x: Comparison)
    ensures Connected(events) ==> Connected(events + more)
    ensures ConnectThenAuth(events, x) ==> ConnectThenAuth(events + more, x)
  {
    if Connected(events) {
      var i: nat :| GreetedAt(events, i);
      GreetedLonger(events, more, i);
    }
    if ConnectThenAuth(events, x) {
      var i: nat, j: nat :| GreetedAt(events, i) && AuthAfter(events, i, j, x);
      GreetedLonger(events, more, i);
      assert AuthAfter(events + more, i, j, x);
    }
  }

  lemma OneMoreEvent(before: seq<Event>, e: Event, x: Comparison)
    ensures Connected(before) && e.message == Auth(x.pin) && e.now == x.now ==> ConnectThenAuth(before + [e], x)
    ensures NoConnect(before) && GoodConnect(e.message) ==> Connected(before + [e])
    ensures NoConnect(before) && !e.message.Connect? ==> NoConnect(before + [e])
  {
    if Connected(before) && e.message == Auth(x.pin) && e.now == x.now {
      var i: nat :| GreetedAt(before, i);
      GreetedLonger(before, [e], i);
      assert AuthAfter(before + [e], i, |before|, x);
    }
    if NoConnect(before) && GoodConnect(e.message) {
      assert (before + [e])[..|before|] == before;
      assert GreetedAt(before + [e], |before|);
    }
  }

  ghost predicate Begun(rt: Rt) { rt.ses.state == Authenticating || rt.ses.state == Ready }

  /** The server is past connecting only after an acceptable first Connect, and notices every Connect. */
  ghost predicate Tracks(rt: Rt, done: seq<Event>) {
    (Begun(rt) ==> Connected(done)) && (!rt.connectSeen ==> NoConnect(done))
  }

  lemma ConnectNoticed(c: RuntimeConfig, rt: Rt, e: Event)
    ensures var rt' := ServerHandle(c, rt, e.message, e.now, e.sends).rt;
      && rt'.connectSeen == (rt.connectSeen || e.message.Connect?)
      && (Begun(rt') ==> Begun(rt) || (GoodConnect(e.message) && !rt.connectSeen))
  {
    hide Registry.Clear, Blank;
  }

  lemma TracksStep(c: RuntimeConfig, rt: Rt, done: seq<Event>, e: Event)
    requires Tracks(rt, done)
    ensures Tracks(ServerHandle(c, rt, e.message, e.now, e.sends).rt, done + [e])
  {
    ConnectNoticed(c, rt, e);
    OneMoreEvent(done, e, Comparison("", 0));
    MoreEvents(done, [e], Comparison("", 0));
    hide ServerHandle, Connected, ConnectThenAuth, NoConnect, GoodConnect, Begun;
  }

  /**
   * From a new runtime the first Connect is accepted exactly when it has a path and version 0 or
   * the server's own; otherwise the session is closed and the handshake fails.
   */
  lemma FirstConnectExactly(c: RuntimeConfig, path: string, version: int, now: nat, sends: nat)
    ensures var r := ServerHandle(c, NewRt(c), Connect(path, version), now, sends);
      if GoodConnect(Connect(path, version)) then
        && r.rt.ses.state == (if c.policy.pinRequired then Authenticating else Ready)
        && (sends == 0 ==> r.out == [] && r.verdict == Failed)
        && (sends > 0 && c.policy.pinRequired ==> r.out == [AuthRequired] && r.verdict == Continue)
        && (sends > 0 && !c.policy.pinRequired ==> r.out == [ReadyMessage(c.routing)] && r.verdict == Finished)
      else
        r.rt.ses.state == Closed && r.verdict == Failed && r.out == if sends > 0 then [ErrorMessage] else []
  {
  }

  /** However messages arrive, a server past connecting was reached by an acceptable first Connect. */
  lemma {:induction false} BegunAfterConnect(c: RuntimeConfig, events: seq<Event>)
    ensures Tracks(ServerAfter(c, events), events)
  {
    if events != [] {
      hide ServerHandle, Tracks;
      var before, e := events[..|events| - 1], events[|events| - 1];
      BegunAfterConnect(c, before);
      TracksStep(c, ServerAfter(c, before), before, e);
      assert before + [e] == events;
    }
  }

  /** Every PIN compared came in an Auth message, after an acceptable first Connect. */
  lemma {:induction false} ComparedAfterConnect(c: RuntimeConfig, events: seq<Event>, x: Comparison)
    requires x in Comparisons(c, events)
    ensures ConnectThenAuth(events, x)
  {
    var before, e := events[..|events| - 1], events[|events| - 1];
    hide ServerHandle, ConnectThenAuth, Connected, ServerAfter;
    assert before + [e] == events;
    if x in Comparisons(c, before) {
      ComparedAfterConnect(c, before, x);
      MoreEvents(before, [e], x);
    } else {
      OneMoreEvent(before, e, x);
      BegunAfterConnect(c, before);
    }
  }

  /**
   * A server that requires a PIN is ready only after a Connect and, later, an Auth carrying
   * exactly the expected six bytes, with fewer than `max_auth_fails` wrong PINs compared before.
   */
  lemma ReadyNeedsThePin(c: RuntimeConfig, events: seq<Event>)
    requires ValidPolicy(c.policy) && c.policy.pinRequired && ClocksFit(c.policy, Comparisons(c, events))
    requires ServerAfter(c, events).ses.state == Ready
    ensures var log := Comparisons(c, events);
      && log != [] && log[|log| - 1].pin == c.policy.expectedPin.value
      && ConnectThenAuth(events, log[|log| - 1])
      && AllWrong(c.policy, log[..|log| - 1]) && |log| - 1 < c.policy.maxAuthFails
      && Spaced(c.policy, log)
  {
    ServerAttempts(c, events);
    var log := Comparisons(c, events);
    ComparedAfterConnect(c, events, log[|log| - 1]);
  }

  // ---- Sends that fail -----------------------------------------------------

  /** The reaction when only `sends` messages get out, compared with one when all do. */
  ghost predicate CutShort(r: Reaction, whole: Reaction, sends: nat) {
    && r.out == whole.out[..Min(sends, |whole.out|)]
    && r.rt.ses == whole.rt.ses
    && r.verdict == if sends >= |whole.out| then whole.verdict else Failed
  }

  /**
   * A channel that stops accepting messages cuts a reaction short and does nothing else: what gets out
   * is a prefix of what would have, the session moves as it would have, and the handshake fails.
   */
  lemma SendsCutShort(c: RuntimeConfig, rt: Rt, m: ControlMessage, now: nat, sends: nat)
    requires rt.readySeen ==> rt.ses.state == Ready || rt.ses.state == Closed
    ensures CutShort(ServerHandle(c, rt, m, now, sends), ServerHandle(c, rt, m, now, 2), sends)
    ensures CutShort(ClientHandle(rt, m, sends), ClientHandle(rt, m, 1), sends)
  {
    ServerCutShort(c, rt, m, now, sends);
    ClientCutShort(rt, m, sends);
  }

  lemma ClosingTwice(s: Ses)
    ensures CloseSession(CloseSession(s)) == CloseSession(s)
  {
    assert Registry.Clear(Registry.Clear(s.reg)) == Registry.Clear(s.reg);
  }

  lemma ServerCutShort(c: RuntimeConfig, rt: Rt, m: ControlMessage, now: nat, sends: nat)
    requires rt.readySeen ==> rt.ses.state == Ready || rt.ses.state == Closed
    ensures CutShort(ServerHandle(c, rt, m, now, sends), ServerHandle(c, rt, m, now, 2), sends)
  {
    if m.Auth? {
      ClosingTwice(rt.ses.(attempts := SaturatingSucc(rt.ses.attempts)));
    }
    hide Blank, CloseSession, PinMatches;
  }

  /** A server announces readiness only when it is ready. */
  lemma {:induction false} AnnouncedWhenReady(c: RuntimeConfig, events: seq<Event>)
    ensures var rt := ServerAfter(c, events);
      rt.readySeen ==> rt.ses.state == Ready || rt.ses.state == Closed
  {
    if events != [] {
      AnnouncedWhenReady(c, events[..|events| - 1]);
      hide Registry.Clear, Blank;
    }
  }

  lemma ClientCutShort(rt: Rt, m: ControlMessage, sends: nat)
    ensures CutShort(ClientHandle(rt, m, sends), ClientHandle(rt, m, 1), sends)
  {
    hide Registry.Clear, Blank;
  }

  // ---- The handshake loop of a server --------------------------------------

  function ComparedBy(rt: Rt, e: Event): seq<Comparison> {
    if Compares(rt, e) then [Comparison(e.message.pin, e.now)] else []
  }

  /** The comparisons of the handshake loop, which stops at the first message that ends it. */
  function LoopComparisons(c: RuntimeConfig, rt: Rt, inbox: seq<Event>): seq<Comparison>
    decreases |inbox|
  {
    if inbox == [] then []
    else
      var r := Handle(c, rt, inbox[0]);
      ComparedBy(rt, inbox[0]) + if r.verdict == Continue then LoopComparisons(c, r.rt, inbox[1..]) else []
  }

  lemma OverflowEnds(c: RuntimeConfig, rt: Rt, e: Event)
    requires Compares(rt, e) && e.now + c.policy.pinFailDelay > c.policy.horizon
    ensures ServerHandle(c, rt, e.message, e.now, e.sends).verdict != Continue
  {
    hide Registry.Clear, Blank;
  }

  lemma OverflowBounded(c: RuntimeConfig, rt: Rt, e: Event, log: seq<Comparison>)
    requires ValidPolicy(c.policy) && c.policy.pinRequired && Attempts(c.policy, rt.ses, log)
    requires Compares(rt, e) && e.now + c.policy.pinFailDelay > c.policy.horizon
    ensures Bounded(c.policy, ServerHandle(c, rt, e.message, e.now, e.sends).rt.ses.state,
                    log + [Comparison(e.message.pin, e.now)])
  {
    hide ServerHandle, Attempts, Bounded, Authenticate, BeginAuthentication, ValidPolicy;
    ServerSession(c, rt, e);
    CompareKeeps(c.policy, rt.ses, e.message.pin, e.now, log);
  }

  /** A retry instant that cannot be represented ends the loop, so no clock needs to be trusted. */
  lemma StepBounded(c: RuntimeConfig, rt: Rt, e: Event, log: seq<Comparison>)
    requires ValidPolicy(c.policy) && c.policy.pinRequired && Attempts(c.policy, rt.ses, log)
    ensures var r, log' := ServerHandle(c, rt, e.message, e.now, e.sends), log + ComparedBy(rt, e);
      && Bounded(c.policy, r.rt.ses.state, log')
      && (r.verdict == Continue ==> Attempts(c.policy, r.rt.ses, log'))
  {
    hide ServerHandle, Attempts, Bounded, ValidPolicy;
    if Compares(rt, e) && e.now + c.policy.pinFailDelay > c.policy.horizon {
      OverflowEnds(c, rt, e);
      OverflowBounded(c, rt, e, log);
    } else {
      AttemptsStep(c, rt, e, log);
      AttemptsBounded(c.policy, ServerHandle(c, rt, e.message, e.now, e.sends).rt.ses, log + ComparedBy(rt, e));
    }
  }

  lemma {:induction false} LoopBounded(c: RuntimeConfig, rt: Rt, inbox: seq<Event>, log: seq<Comparison>)
    requires c.role == Server && ValidPolicy(c.policy) && c.policy.pinRequired && Attempts(c.policy, rt.ses, log)
    ensures Bounded(c.policy, Loop(c, rt, inbox).rt.ses.state, log + LoopComparisons(c, rt, inbox))
    decreases |inbox|
  {
    hide ServerHandle, Attempts, Bounded, ComparedBy, ValidPolicy, Registry.Clear;
    if inbox == [] {
      AttemptsBounded(c.policy, rt.ses, log);
      assert log + [] == log;
    } else {
      StepBounded(c, rt, inbox[0], log);
      var r, now := Handle(c, rt, inbox[0]), ComparedBy(rt, inbox[0]);
      if r.verdict == Continue {
        LoopBounded(c, r.rt, inbox[1..], log + now);
        Associate(log, now, LoopComparisons(c, r.rt, inbox[1..]));
      } else {
        assert now + [] == now;
      }
    }
  }

  lemma Associate(a: seq<Comparison>, b: seq<Comparison>, c: seq<Comparison>)
    ensures a + b + c == a + (b + c)
  {
  }

  lemma {:induction false} LoopComparedAfterConnect(c: RuntimeConfig, rt: Rt, done: seq<Event>, inbox: seq<Event>,
                                                    x: Comparison)
    requires c.role == Server && x in LoopComparisons(c, rt, inbox) && Tracks(rt, done)
    ensures ConnectThenAuth(done + inbox, x)
    decreases |inbox|
  {
    var e := inbox[0];
    TracksStep(c, rt, done, e);
    OneMoreEvent(done, e, x);
    hide ServerHandle, Connected, ConnectThenAuth, NoConnect;
    assert done + [e] + inbox[1..] == done + inbox;
    if x in ComparedBy(rt, e) {
      MoreEvents(done + [e], inbox[1..], x);
    } else {
      LoopComparedAfterConnect(c, Handle(c, rt, e).rt, done + [e], inbox[1..], x);
    }
  }

  lemma {:induction false} LoopBegun(c: RuntimeConfig, rt: Rt, done: seq<Event>, inbox: seq<Event>)
    requires c.role == Server && Tracks(rt, done) && Begun(Loop(c, rt, inbox).rt)
    ensures Connected(done + inbox)
    decreases |inbox|
  {
    var e, r := inbox[0], Handle(c, rt, inbox[0]);
    TracksStep(c, rt, done, e);
    hide ServerHandle, Connected, NoConnect;
    assert done + [e] + inbox[1..] == done + inbox;
    if r.verdict == Continue {
      LoopBegun(c, r.rt, done + [e], inbox[1..]);
    } else {
      MoreEvents(done + [e], inbox[1..], Comparison("", 0));
    }
  }

  /** With or without a PIN, the handshake leaves Connecting only after an acceptable first Connect. */
  lemma HandshakeNeedsConnect(c: RuntimeConfig, inbox: seq<Event>)
    requires c.role == Server
    ensures Begun(Loop(c, NewRt(c), inbox).rt) ==> Connected(inbox)
    ensures Loop(c, NewRt(c), inbox).verdict == Finished ==> Connected(inbox)
  {
    if Loop(c, NewRt(c), inbox).verdict == Finished {
      FinishedIsReady(c, NewRt(c), inbox);
    }
    hide Loop;
    if Begun(Loop(c, NewRt(c), inbox).rt) {
      LoopBegun(c, NewRt(c), [], inbox);
      assert [] + inbox == inbox;
    }
  }

  /** A handshake that returns without error leaves the session ready and announced, on either side. */
  lemma {:induction false} FinishedIsReady(c: RuntimeConfig, rt: Rt, inbox: seq<Event>)
    requires Loop(c, rt, inbox).verdict == Finished
    ensures Loop(c, rt, inbox).rt.ses.state == Ready && Loop(c, rt, inbox).rt.readySeen
    decreases |inbox|
  {
    var r := Handle(c, rt, inbox[0]);
    StepFinished(c, rt, inbox[0]);
    hide Handle;
    if r.verdict == Continue {
      FinishedIsReady(c, r.rt, inbox[1..]);
    }
  }

  lemma StepFinished(c: RuntimeConfig, rt: Rt, e: Event)
    ensures Handle(c, rt, e).verdict == Finished ==>
      Handle(c, rt, e).rt.ses.state == Ready && Handle(c, rt, e).rt.readySeen
  {
    hide Registry.Clear, Blank;
  }

  /**
   * The handshake of a server that requires a PIN, over any messages at any times with any sends
   * failing: it compares at most `max_auth_fails` PINs, each from an Auth after a first Connect with
   * a path and an acceptable version, all but the last of them wrong and successive ones at least
   * the retry delay apart. It is ready only if the last one is the expected PIN, and returns
   * without error only if it is ready.
   */
  lemma HandshakeAuthenticates(c: RuntimeConfig, inbox: seq<Event>)
    requires c.role == Server && ValidPolicy(c.policy) && c.policy.pinRequired
    ensures var r, log := Loop(c, NewRt(c), inbox), LoopComparisons(c, NewRt(c), inbox);
      && Bounded(c.policy, r.rt.ses.state, log)
      && (forall x :: x in log ==> ConnectThenAuth(inbox, x))
      && (r.verdict == Finished ==> r.rt.ses.state == Ready)
  {
    hide *;
    NewIsBounded(c, inbox);
    if Loop(c, NewRt(c), inbox).verdict == Finished {
      FinishedIsReady(c, NewRt(c), inbox);
    }
    forall x | x in LoopComparisons(c, NewRt(c), inbox) ensures ConnectThenAuth(inbox, x) {
      NewComparesAfterConnect(c, inbox, x);
    }
  }

  lemma NewIsBounded(c: RuntimeConfig, inbox: seq<Event>)
    requires c.role == Server && ValidPolicy(c.policy) && c.policy.pinRequired
    ensures Bounded(c.policy, Loop(c, NewRt(c), inbox).rt.ses.state, LoopComparisons(c, NewRt(c), inbox))
  {
    assert Attempts(c.policy, NewRt(c).ses, []);
    hide Loop, LoopComparisons, Bounded, Attempts, ValidPolicy;
    LoopBounded(c, NewRt(c), inbox, []);
    assert [] + LoopComparisons(c, NewRt(c), inbox) == LoopComparisons(c, NewRt(c), inbox);
  }

  lemma NewComparesAfterConnect(c: RuntimeConfig, inbox: seq<Event>, x: Comparison)
    requires c.role == Server && x in LoopComparisons(c, NewRt(c), inbox)
    ensures ConnectThenAuth(inbox, x)
  {
    assert Tracks(NewRt(c), []);
    hide LoopComparisons, ConnectThenAuth, Tracks;
    LoopComparedAfterConnect(c, NewRt(c), [], inbox, x);
    assert [] + inbox == inbox;
  }

  /** A closed session answers every message with an error and stays closed, on either side. */
  lemma ClosedStays(c: RuntimeConfig, rt: Rt, e: Event)
    requires rt.ses.state == Closed
    ensures Handle(c, rt, e).rt.ses.state == Closed && Handle(c, rt, e).verdict == Failed
  {
  }

  lemma {:induction false} ClosedIsNeverLeft(c: RuntimeConfig, events: seq<Event>, i: nat)
    requires i <= |events| && ServerAfter(c, events[..i]).ses.state == Closed
    ensures ServerAfter(c, events).ses.state == Closed
  {
    if i < |events| {
      var before := events[..|events| - 1];
      assert before[..i] == events[..i];
      ClosedIsNeverLeft(c, before, i);
      ClosedStays(c.(role := Server), ServerAfter(c, before), events[|events| - 1]);
    } else {
      assert events[..i] == events;
    }
  }

  // ---- Both sides over two channels ----------------------------------------

  /** Both runtimes, the messages in flight, and what has happened so far. */
  datatype Link = Link(
    client: Rt,
    server: Rt,
    toServer: seq<ControlMessage>,
    toClient: seq<ControlMessage>,
    pinsSent: seq<string>,
    clientReached: bool,
    serverReached: bool)

  /** One step: a delivery with any number of successful sends, a local close, or a lost tail. */
  datatype Action =
    | DeliverToServer(now: nat, sends: nat)
    | DeliverToClient(sends: nat)
    | CloseServer
    | CloseClient
    | CutToServer(keep: nat)
    | CutToClient(keep: nat)

  datatype Pair = Pair(server: RuntimeConfig, client: RuntimeConfig)

  function LinkStart(c: Pair): Link {
    Link(NewRt(c.client), NewRt(c.server), [Connect(c.client.path, PROTOCOL_VERSION)], [], [], false, false)
  }

  function PinsIn(out: seq<ControlMessage>): seq<string> {
    if out == [] then []
    else (if out[0].Auth? then [out[0].pin] else []) + PinsIn(out[1..])
  }

  function Advance(c: Pair, l: Link, a: Action): Link {
    match a
    case DeliverToServer(now, sends) =>
      if l.toServer == [] then l
      else
        var r := ServerHandle(c.server, l.server, l.toServer[0], now, sends);
        l.(server := r.rt, toServer := l.toServer[1..], toClient := l.toClient + r.out,
           serverReached := l.serverReached || r.rt.ses.state == Ready)
    case DeliverToClient(sends) =>
      if l.toClient == [] then l
      else
        var r := ClientHandle(l.client, l.toClient[0], sends);
        l.(client := r.rt, toClient := l.toClient[1..], toServer := l.toServer + r.out,
           pinsSent := l.pinsSent + PinsIn(r.out),
           clientReached := l.clientReached || r.rt.ses.state == Ready)
    case CloseServer => l.(server := l.server.(ses := CloseSession(l.server.ses)))
    case CloseClient => l.(client := l.client.(ses := CloseSession(l.client.ses)))
    case CutToServer(keep) => if keep > |l.toServer| then l else l.(toServer := l.toServer[..keep])
    case CutToClient(keep) => if keep > |l.toClient| then l else l.(toClient := l.toClient[..keep])
  }

  function LinkAfter(c: Pair, actions: seq<Action>): Link {
    if actions == [] then LinkStart(c)
    else Advance(c, LinkAfter(c, actions[..|actions| - 1]), actions[|actions| - 1])
  }

  ghost predicate Agree(c: Pair, l: Link) {
    && (l.server.ses.state == Ready ==> l.serverReached)
    && (l.client.ses.state == Ready ==> l.clientReached)
    && (l.clientReached ==> l.serverReached)
    && (forall i :: 0 <= i < |l.toClient| && l.toClient[i].ReadyMessage? ==> l.serverReached)
    && (forall i :: 0 <= i < |l.toServer| && l.toServer[i].Auth? ==> l.toServer[i].pin in l.pinsSent)
    && (forall pin :: pin in l.pinsSent ==> pin in c.client.pins)
    && (forall pin :: pin in l.client.pins ==> pin in c.client.pins)
    && (l.serverReached && c.server.policy.pinRequired ==>
          exists pin :: pin in l.pinsSent && PinMatches(c.server.policy.expectedPin, pin))
  }

  /** What one server reaction can add: readiness only by the right PIN, Ready messages only when ready. */
  lemma ServerReacts(c: RuntimeConfig, rt: Rt, m: ControlMessage, now: nat, sends: nat)
    ensures var r := ServerHandle(c, rt, m, now, sends);
      && (r.rt.ses.state == Ready && rt.ses.state != Ready && c.policy.pinRequired ==>
            m.Auth? && PinMatches(c.policy.expectedPin, m.pin))
      && (forall i :: 0 <= i < |r.out| && r.out[i].ReadyMessage? ==> r.rt.ses.state == Ready)
  {
    hide Registry.Clear, Blank;
    match m {
      case Connect(path, version) => hide ServerAuth;
      case Auth(pin) => hide ServerConnect;
      case _ => hide ServerAuth, ServerConnect;
    }
  }

  /** What one client reaction can add: readiness only by a Ready message, PINs only from its queue. */
  lemma ClientReacts(rt: Rt, m: ControlMessage, sends: nat)
    ensures var r := ClientHandle(rt, m, sends);
      && (r.rt.ses.state == Ready && rt.ses.state != Ready ==> m.ReadyMessage?)
      && (forall i :: 0 <= i < |r.out| && r.out[i].Auth? ==> r.out[i].pin in PinsIn(r.out) && r.out[i].pin in rt.pins)
      && (forall pin :: pin in PinsIn(r.out) ==> pin in rt.pins)
      && (forall pin :: pin in r.rt.pins ==> pin in rt.pins)
  {
  }

  lemma ServerDelivery(c: Pair, l: Link, now: nat, sends: nat)
    requires Agree(c, l)
    ensures Agree(c, Advance(c, l, DeliverToServer(now, sends)))
  {
    if l.toServer != [] {
      ServerReacts(c.server, l.server, l.toServer[0], now, sends);
      hide ServerHandle;
    }
  }

  lemma ClientDelivery(c: Pair, l: Link, sends: nat)
    requires Agree(c, l)
    ensures Agree(c, Advance(c, l, DeliverToClient(sends)))
  {
    if l.toClient != [] {
      ClientReacts(l.client, l.toClient[0], sends);
      hide ClientHandle, PinsIn;
      var l' := Advance(c, l, DeliverToClient(sends));
      forall pin | pin in l'.pinsSent ensures pin in c.client.pins {}
      assert forall pin :: pin in l.pinsSent ==> pin in l'.pinsSent;
    }
  }

  lemma {:induction false} AgreeInvariant(c: Pair, actions: seq<Action>)
    ensures Agree(c, LinkAfter(c, actions))
  {
    if actions != [] {
      hide ServerHandle, ClientHandle;
      var before, a := actions[..|actions| - 1], actions[|actions| - 1];
      AgreeInvariant(c, before);
      var l := LinkAfter(c, before);
      match a
      case DeliverToServer(now, sends) => ServerDelivery(c, l, now, sends);
      case DeliverToClient(sends) => ClientDelivery(c, l, sends);
      case _ =>
    }
  }

  /**
   * In every reachable state, whatever is lost, cut short or closed: a client that is or was ready
   * had a server that reached ready, and if a PIN was required then one of the PINs this client
   * actually sent, each from its own list, is the expected one.
   */
  lemma HandshakeAgreement(c: Pair, actions: seq<Action>)
    ensures var l := LinkAfter(c, actions);
      && (l.client.ses.state == Ready ==> l.clientReached)
      && (l.clientReached ==> l.serverReached)
      && (l.serverReached && c.server.policy.pinRequired ==>
            exists pin :: pin in l.pinsSent && pin in c.client.pins && PinMatches(c.server.policy.expectedPin, pin))
  {
    AgreeInvariant(c, actions);
    hide LinkAfter;
    var l := LinkAfter(c, actions);
    if l.serverReached && c.server.policy.pinRequired {
      var pin :| pin in l.pinsSent && PinMatches(c.server.policy.expectedPin, pin);
      assert pin in c.client.pins;
    }
  }
}
