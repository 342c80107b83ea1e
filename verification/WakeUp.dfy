/**
 * Wait loops around a notifier, as the peer uses them.
 *
 * A loop tests some latched conditions, creates a notification future, tests some conditions again
 * and then awaits the future. A call that notifies all waiters reaches every future already created,
 * so a future is woken exactly when such a call was made after its creation.
 */
module WakeUp {

  /** A latched condition: a flag or a failure slot that is set once and never reset. */
  type Condition = nat

  /** The conditions tested before and after registering, in order. */
  datatype WaitLoop = WaitLoop(before: seq<Condition>, after: seq<Condition>)

  datatype Pc =
    | Checking(k: nat)
    | Registering
    | Rechecking(k: nat, seen: nat)   // `seen` counts the notify calls made before the future was created
    | Awaiting(seen: nat)
    | Done

  /** What holds, how often waiters were notified, when each condition was first announced, and the waiters. */
  datatype World = World(holds: set<Condition>, calls: nat, announced: map<Condition, nat>, waiters: seq<Pc>)

  /** Setters store a condition and later announce it; other events notify without a condition. */
  datatype Action =
    | Store(c: Condition)
    | Announce(c: Condition)
    | NotifyOnly
    | Wait(i: nat)

  function StartWorld(n: nat): World { World({}, 0, map[], seq(n, _ => Checking(0))) }

  function WaitStep(l: WaitLoop, w: World, pc: Pc): Pc {
    match pc
    case Checking(k) =>
      if k >= |l.before| then Registering else if l.before[k] in w.holds then Done else Checking(k + 1)
    case Registering => Rechecking(0, w.calls)
    case Rechecking(k, seen) =>
      if k >= |l.after| then Awaiting(seen) else if l.after[k] in w.holds then Done else Rechecking(k + 1, seen)
    case Awaiting(seen) => if w.calls > seen then Checking(0) else pc
    case Done => Done
  }

  function Act(loops: seq<WaitLoop>, w: World, a: Action): (w': World)
    requires |w.waiters| == |loops|
    ensures |w'.waiters| == |loops|
  {
    match a
    case Store(c) => w.(holds := w.holds + {c})
    case Announce(c) =>
      if c !in w.holds then w
      else
        w.(calls := w.calls + 1,
           announced := if c in w.announced then w.announced else w.announced[c := w.calls + 1])
    case NotifyOnly => w.(calls := w.calls + 1)
    case Wait(i) => if i >= |loops| then w else w.(waiters := w.waiters[i := WaitStep(loops[i], w, w.waiters[i])])
  }

  function Acted(loops: seq<WaitLoop>, w: World, actions: seq<Action>): (w': World)
    requires |w.waiters| == |loops|
    ensures |w'.waiters| == |loops|
    decreases |actions|
  {
    if actions == [] then w else Acted(loops, Act(loops, w, actions[0]), actions[1..])
  }

  ghost predicate Blocked(w: World, i: nat)
    requires i < |w.waiters|
  {
    w.waiters[i].Awaiting? && w.calls <= w.waiters[i].seen
  }

  // ---- No lost wake-up -----------------------------------------------------

  /** Once a waiter has passed its second test of an announced condition, it registered before the announcement. */
  ghost predicate Registered(l: WaitLoop, w: World, pc: Pc) {
    && (pc.Rechecking? || pc.Awaiting? ==> pc.seen <= w.calls)
    && (pc.Awaiting? ==>
          forall j :: 0 <= j < |l.after| && l.after[j] in w.announced ==> pc.seen < w.announced[l.after[j]])
    && (pc.Rechecking? ==>
          forall j :: 0 <= j < |l.after| && j < pc.k && l.after[j] in w.announced ==> pc.seen < w.announced[l.after[j]])
  }

  ghost predicate Sound(loops: seq<WaitLoop>, w: World) {
    && |w.waiters| == |loops|
    && (forall c :: c in w.announced ==> c in w.holds && w.announced[c] <= w.calls)
    && (forall i :: 0 <= i < |loops| ==> Registered(loops[i], w, w.waiters[i]))
  }

  lemma ActKeepsSound(loops: seq<WaitLoop>, w: World, a: Action)
    requires Sound(loops, w)
    ensures Sound(loops, Act(loops, w, a))
  {
  }

  lemma {:induction false} ActedKeepsSound(loops: seq<WaitLoop>, w: World, actions: seq<Action>)
    requires Sound(loops, w)
    ensures Sound(loops, Acted(loops, w, actions))
    decreases |actions|
  {
    if actions != [] {
      hide Sound, Act;
      ActKeepsSound(loops, w, actions[0]);
      ActedKeepsSound(loops, Act(loops, w, actions[0]), actions[1..]);
    }
  }

  /**
   * In every interleaving of any setters, other notifications and any number of waiters: no waiter
   * is blocked once a condition it tests after registering has been announced.
   */
  lemma NoLostWakeUp(loops: seq<WaitLoop>, actions: seq<Action>, i: nat, c: Condition)
    requires i < |loops| && c in loops[i].after
    requires c in Acted(loops, StartWorld(|loops|), actions).announced
    ensures !Blocked(Acted(loops, StartWorld(|loops|), actions), i)
  {
    ActedKeepsSound(loops, StartWorld(|loops|), actions);
    hide Acted;
    var w := Acted(loops, StartWorld(|loops|), actions);
    var j :| 0 <= j < |loops[i].after| && loops[i].after[j] == c;
    assert Registered(loops[i], w, w.waiters[i]);
  }

  /** Every notification wakes every waiter that has registered. */
  lemma NotifyWakesAll(loops: seq<WaitLoop>, w: World, a: Action, i: nat)
    requires Sound(loops, w) && i < |loops| && (a == NotifyOnly || (a.Announce? && a.c in w.holds))
    ensures !Blocked(Act(loops, w, a), i)
  {
    assert Registered(loops[i], w, w.waiters[i]);
  }

  /** A waiter that sleeps does not go on before it is notified, whatever is stored meanwhile. */
  lemma {:induction false} SleepsUntilNotified(loops: seq<WaitLoop>, w: World, actions: seq<Action>, i: nat)
    requires |w.waiters| == |loops| && i < |loops| && Blocked(w, i)
    requires forall k :: 0 <= k < |actions| ==> actions[k].Store? || actions[k].Wait?
    ensures Acted(loops, w, actions).waiters[i] == w.waiters[i] && Blocked(Acted(loops, w, actions), i)
    decreases |actions|
  {
    if actions != [] {
      SleepsUntilNotified(loops, Act(loops, w, actions[0]), actions[1..], i);
    }
  }

  // ---- And it is tested after registering only then ------------------------

  function Repeat(a: Action, n: nat): seq<Action> {
    if n == 0 then [] else [a] + Repeat(a, n - 1)
  }

  lemma {:induction false} ActedAppend(loops: seq<WaitLoop>, w: World, xs: seq<Action>, ys: seq<Action>)
    requires |w.waiters| == |loops|
    ensures Acted(loops, w, xs + ys) == Acted(loops, Acted(loops, w, xs), ys)
    decreases |xs|
  {
    if xs == [] {
      assert xs + ys == ys;
    } else {
      assert (xs + ys)[1..] == xs[1..] + ys;
      ActedAppend(loops, Act(loops, w, xs[0]), xs[1..], ys);
    }
  }

  lemma {:induction false} ChecksPass(l: WaitLoop, w: World, k: nat)
    requires |w.waiters| == 1 && w.waiters[0] == Checking(k) && k <= |l.before| && w.holds == {}
    ensures Acted([l], w, Repeat(Wait(0), |l.before| - k + 1)) == w.(waiters := [Registering])
    decreases |l.before| - k
  {
    var n := |l.before| - k;
    var steps := Repeat(Wait(0), n + 1);
    assert steps[0] == Wait(0) && steps[1..] == Repeat(Wait(0), n);
    var w' := Act([l], w, Wait(0));
    if k < |l.before| {
      assert w' == w.(waiters := [Checking(k + 1)]);
      ChecksPass(l, w', k + 1);
    } else {
      assert w' == w.(waiters := [Registering]);
    }
  }

  lemma {:induction false} RechecksPass(l: WaitLoop, w: World, k: nat, seen: nat)
    requires |w.waiters| == 1 && w.waiters[0] == Rechecking(k, seen) && k <= |l.after|
    requires forall j :: 0 <= j < |l.after| ==> l.after[j] !in w.holds
    ensures Acted([l], w, Repeat(Wait(0), |l.after| - k + 1)) == w.(waiters := [Awaiting(seen)])
    decreases |l.after| - k
  {
    var n := |l.after| - k;
    var steps := Repeat(Wait(0), n + 1);
    assert steps[0] == Wait(0) && steps[1..] == Repeat(Wait(0), n);
    var w' := Act([l], w, Wait(0));
    if k < |l.after| {
      assert w' == w.(waiters := [Rechecking(k + 1, seen)]);
      RechecksPass(l, w', k + 1, seen);
    } else {
      assert w' == w.(waiters := [Awaiting(seen)]);
    }
  }

  /** A condition that a loop does not test after registering can be announced and missed. */
  lemma MissedWakeUp(l: WaitLoop, c: Condition) returns (actions: seq<Action>)
    requires c !in l.after
    ensures var w := Acted([l], StartWorld(1), actions);
      c in w.announced && Blocked(w, 0)
  {
    var checks, rechecks := Repeat(Wait(0), |l.before| + 1), Repeat(Wait(0), |l.after| + 1);
    var w0 := StartWorld(1);
    var w1 := w0.(waiters := [Registering]);
    ChecksPass(l, w0, 0);
    var middle := [Store(c), Announce(c), Wait(0)];
    var w2 := World({c}, 1, map[c := 1], [Rechecking(0, 1)]);
    assert Acted([l], w1, middle) == w2 by {
      var a, b := World({c}, 0, map[], [Registering]), World({c}, 1, map[c := 1], [Registering]);
      assert Act([l], w1, Store(c)) == a && Act([l], a, Announce(c)) == b && Act([l], b, Wait(0)) == w2;
      assert [Wait(0)][1..] == [] && middle[1..] == [Announce(c), Wait(0)] && middle[1..][1..] == [Wait(0)];
      assert Acted([l], b, [Wait(0)]) == Acted([l], w2, []);
      assert Acted([l], a, [Announce(c), Wait(0)]) == Acted([l], b, [Wait(0)]);
    }
    RechecksPass(l, w2, 0, 1);
    actions := checks + (middle + rechecks);
    ActedAppend([l], w0, checks, middle + rechecks);
    ActedAppend([l], w1, middle, rechecks);
  }

  /** Whether a loop can miss the announcement of a condition. */
  ghost predicate CanMiss(l: WaitLoop, c: Condition) {
    exists actions ::
      c in Acted([l], StartWorld(1), actions).announced && Blocked(Acted([l], StartWorld(1), actions), 0)
  }

  /** A loop is safe for a condition exactly when it tests the condition again after registering. */
  lemma SafeExactly(l: WaitLoop, c: Condition)
    ensures CanMiss(l, c) <==> c !in l.after
  {
    if c !in l.after {
      var actions := MissedWakeUp(l, c);
    } else {
      forall actions | c in Acted([l], StartWorld(1), actions).announced
        ensures !Blocked(Acted([l], StartWorld(1), actions), 0)
      {
        NoLostWakeUp([l], actions, 0, c);
      }
    }
  }

  // ---- Every such waiter returns -------------------------------------------

  function Fresh(l: WaitLoop): nat { |l.before| + |l.after| + 3 }

  /** How many steps of its own a waiter still needs at most, once the condition has been announced. */
  function StepsLeft(l: WaitLoop, c: Condition, pc: Pc): nat {
    match pc
    case Done => 0
    case Checking(k) => if k <= |l.before| then Fresh(l) - k else |l.after| + 3
    case Registering => |l.after| + 2
    case Rechecking(k, _) =>
      if k >= |l.after| then Fresh(l) + 2
      else if c in l.after[k..] then |l.after| - k + 1
      else |l.after| - k + Fresh(l) + 2
    case Awaiting(_) => Fresh(l) + 1
  }

  lemma WaitStepCloser(l: WaitLoop, c: Condition, w: World, pc: Pc)
    requires c in w.holds && c in l.after && !(pc.Awaiting? && w.calls <= pc.seen)
    ensures var pc' := WaitStep(l, w, pc); pc.Done? || StepsLeft(l, c, pc') < StepsLeft(l, c, pc)
  {
  }

  function OwnSteps(actions: seq<Action>, i: nat): nat {
    if actions == [] then 0 else (if actions[0] == Wait(i) then 1 else 0) + OwnSteps(actions[1..], i)
  }

  lemma {:induction false} WaiterCloser(loops: seq<WaitLoop>, w: World, actions: seq<Action>, i: nat, c: Condition)
    requires Sound(loops, w) && i < |loops| && c in loops[i].after && c in w.announced
    ensures var pc := Acted(loops, w, actions).waiters[i];
      || StepsLeft(loops[i], c, pc) == 0
      || StepsLeft(loops[i], c, pc) + OwnSteps(actions, i) <= StepsLeft(loops[i], c, w.waiters[i])
    decreases |actions|
  {
    if actions != [] {
      var w' := Act(loops, w, actions[0]);
      ActKeepsSound(loops, w, actions[0]);
      assert Registered(loops[i], w, w.waiters[i]);
      var j :| 0 <= j < |loops[i].after| && loops[i].after[j] == c;
      if actions[0] == Wait(i) {
        WaitStepCloser(loops[i], c, w, w.waiters[i]);
      }
      var left, left' := StepsLeft(loops[i], c, w.waiters[i]), StepsLeft(loops[i], c, w'.waiters[i]);
      assert left' <= left && (actions[0] == Wait(i) && left > 0 ==> left' < left);
      hide StepsLeft, Act, Sound;
      WaiterCloser(loops, w', actions[1..], i, c);
    }
  }

  /**
   * Once a condition that a waiter tests after registering has been announced, then whatever the
   * others do the waiter returns within a bounded number of steps of its own.
   */
  lemma WaiterReturns(loops: seq<WaitLoop>, first: seq<Action>, rest: seq<Action>, i: nat, c: Condition)
    requires i < |loops| && c in loops[i].after
    requires c in Acted(loops, StartWorld(|loops|), first).announced
    requires OwnSteps(rest, i) >= |loops[i].before| + 2 * |loops[i].after| + 6
    ensures Acted(loops, StartWorld(|loops|), first + rest).waiters[i] == Done
  {
    ActedKeepsSound(loops, StartWorld(|loops|), first);
    ActedAppend(loops, StartWorld(|loops|), first, rest);
    hide Acted;
    WaiterCloser(loops, Acted(loops, StartWorld(|loops|), first), rest, i, c);
  }

  // ---- Waits that need no wake-up ------------------------------------------

  /** The waiter will still test the condition before it would sleep. */
  ghost predicate WillTest(l: WaitLoop, c: Condition, pc: Pc) {
    match pc
    case Checking(k) => (k <= |l.before| && c in l.before[k..]) || c in l.after
    case Registering => c in l.after
    case Rechecking(k, _) => k <= |l.after| && c in l.after[k..]
    case Awaiting(_) => false
    case Done => true
  }

  /** How many steps of its own it needs for that at most. */
  function TestsLeft(l: WaitLoop, pc: Pc): nat {
    match pc
    case Checking(k) => if k <= |l.before| then |l.before| - k + |l.after| + 2 else |l.after| + 2
    case Registering => |l.after| + 1
    case Rechecking(k, _) => if k <= |l.after| then |l.after| - k else 0
    case Awaiting(_) => 0
    case Done => 0
  }

  lemma HeldStep(l: WaitLoop, c: Condition, w: World, pc: Pc)
    requires c in w.holds && WillTest(l, c, pc)
    ensures var pc' := WaitStep(l, w, pc);
      WillTest(l, c, pc') && (pc.Done? || pc'.Done? || TestsLeft(l, pc') < TestsLeft(l, pc))
  {
  }

  lemma {:induction false} HeldReturns(loops: seq<WaitLoop>, w: World, actions: seq<Action>, i: nat, c: Condition)
    requires |w.waiters| == |loops| && i < |loops| && c in w.holds && WillTest(loops[i], c, w.waiters[i])
    ensures var pc := Acted(loops, w, actions).waiters[i];
      && WillTest(loops[i], c, pc)
      && (pc.Done? || TestsLeft(loops[i], pc) + OwnSteps(actions, i) <= TestsLeft(loops[i], w.waiters[i]))
    decreases |actions|
  {
    if actions != [] {
      HeldStep(loops[i], c, w, w.waiters[i]);
      var w' := Act(loops, w, actions[0]);
      assert w.waiters[i].Done? ==> w'.waiters[i].Done?;
      hide WillTest, TestsLeft;
      HeldReturns(loops, w', actions[1..], i, c);
      DoneStays(loops, w', actions[1..], i);
    }
  }

  lemma {:induction false} DoneStays(loops: seq<WaitLoop>, w: World, actions: seq<Action>, i: nat)
    requires |w.waiters| == |loops| && i < |loops|
    ensures w.waiters[i].Done? ==> Acted(loops, w, actions).waiters[i].Done?
    decreases |actions|
  {
    if actions != [] { DoneStays(loops, Act(loops, w, actions[0]), actions[1..], i); }
  }

  /**
   * A waiter that has yet to start when a condition it tests holds returns within a bounded number
   * of its own steps, with no notification at all and whatever the others do.
   */
  lemma HeldBeforeWaiting(loops: seq<WaitLoop>, w: World, actions: seq<Action>, i: nat, c: Condition)
    requires |w.waiters| == |loops| && i < |loops| && w.waiters[i] == Checking(0)
    requires c in w.holds && (c in loops[i].before || c in loops[i].after)
    requires OwnSteps(actions, i) > |loops[i].before| + |loops[i].after| + 2
    ensures Acted(loops, w, actions).waiters[i] == Done
  {
    assert loops[i].before[0..] == loops[i].before;
    HeldReturns(loops, w, actions, i, c);
  }

  /** The loop tests the condition somewhere. */
  ghost predicate Tests(l: WaitLoop, c: Condition) { c in l.before || c in l.after }

  /** A waiter returns only because a condition it tests holds. */
  lemma {:induction false} DoneForAReason(loops: seq<WaitLoop>, w: World, actions: seq<Action>, i: nat)
    requires |w.waiters| == |loops| && i < |loops|
    requires w.waiters[i].Done? ==> exists c :: c in w.holds && Tests(loops[i], c)
    ensures var w' := Acted(loops, w, actions);
      w'.waiters[i].Done? ==> exists c :: c in w'.holds && Tests(loops[i], c)
    decreases |actions|
  {
    if actions != [] {
      var w' := Act(loops, w, actions[0]);
      if w'.waiters[i].Done? && !w.waiters[i].Done? {
        var pc := w.waiters[i];
        var c := if pc.Checking? then loops[i].before[pc.k] else loops[i].after[pc.k];
        assert c in w'.holds && Tests(loops[i], c);
      } else if w.waiters[i].Done? {
        var c :| c in w.holds && Tests(loops[i], c);
        assert c in w'.holds;
      }
      DoneForAReason(loops, w', actions[1..], i);
    }
  }

  // ---- The loops of a peer -------------------------------------------------

  const CONNECTED: Condition := 0
  const CONNECTION_FAILURE: Condition := 1
  const CHANNEL_OPENED: Condition := 2
  const CHANNEL_ERROR: Condition := 3
  const CHANNEL_CLOSED: Condition := 4
  const GATHERING_DONE: Condition := 5

  const WAIT_FOR_GATHERING := WaitLoop([GATHERING_DONE], [GATHERING_DONE])
  const WAIT_DISCONNECTED := WaitLoop([CONNECTION_FAILURE], [CONNECTION_FAILURE])
  const WAIT_CONNECTED := WaitLoop([CONNECTED, CONNECTION_FAILURE], [CONNECTED])
  const WAIT_CHANNEL_OPEN := WaitLoop([CHANNEL_OPENED, CHANNEL_ERROR, CHANNEL_CLOSED], [CHANNEL_OPENED])

  /**
   * Gathering and disconnection are never missed; waiting for a connection or a channel never
   * misses success but can miss every kind of failure, and then sleeps until its timeout.
   */
  lemma PeerLoops()
    ensures !CanMiss(WAIT_FOR_GATHERING, GATHERING_DONE)
    ensures !CanMiss(WAIT_DISCONNECTED, CONNECTION_FAILURE)
    ensures !CanMiss(WAIT_CONNECTED, CONNECTED) && CanMiss(WAIT_CONNECTED, CONNECTION_FAILURE)
    ensures !CanMiss(WAIT_CHANNEL_OPEN, CHANNEL_OPENED)
    ensures CanMiss(WAIT_CHANNEL_OPEN, CHANNEL_ERROR) && CanMiss(WAIT_CHANNEL_OPEN, CHANNEL_CLOSED)
  {
    hide CanMiss;
    SafeExactly(WAIT_FOR_GATHERING, GATHERING_DONE);
    SafeExactly(WAIT_DISCONNECTED, CONNECTION_FAILURE);
    SafeExactly(WAIT_CONNECTED, CONNECTED);
    SafeExactly(WAIT_CONNECTED, CONNECTION_FAILURE);
    SafeExactly(WAIT_CHANNEL_OPEN, CHANNEL_OPENED);
    SafeExactly(WAIT_CHANNEL_OPEN, CHANNEL_ERROR);
    SafeExactly(WAIT_CHANNEL_OPEN, CHANNEL_CLOSED);
  }
}
