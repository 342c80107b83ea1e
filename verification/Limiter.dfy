/** The browser session store: a sliding-window creation limit and a cap on live sessions. */
module Limiter {
  import opened Common

  datatype RecordState = Active | Closed

  datatype SessionRecord = SessionRecord(expiresAt: nat, state: RecordState)

  datatype Limits = Limits(maxSessions: nat, maxCreations: nat, window: nat, ttl: nat)

  /** What the configuration check insists on. */
  predicate ValidLimits(l: Limits) {
    l.maxSessions > 0 && l.maxCreations > 0 && l.window > 0 && l.ttl > 0
  }

  datatype Store = Store(sessions: map<string, SessionRecord>, times: seq<nat>)

  datatype Reply = Created | RateLimited | TooManySessions | NoToken

  // ---- Creation as a function ----------------------------------------------

  /** `now.duration_since(t)`, which is zero when `t` lies ahead. */
  function Elapsed(now: nat, t: nat): nat { if now >= t then now - t else 0 }

  /** The creation times still inside the window, in order. */
  function Recent(times: seq<nat>, now: nat, window: nat): seq<nat> {
    if times == [] then []
    else
      var rest := Recent(times[..|times| - 1], now, window);
      var t := times[|times| - 1];
      if Elapsed(now, t) < window then rest + [t] else rest
  }

  function Unexpired(sessions: map<string, SessionRecord>, now: nat): map<string, SessionRecord> {
    map id | id in sessions && (sessions[id].expiresAt > now || sessions[id].state == Closed) :: sessions[id]
  }

  function Live(sessions: map<string, SessionRecord>, now: nat): set<string> {
    set id | id in sessions && sessions[id].state == Active && sessions[id].expiresAt > now
  }

  /** Pruning happens first and stays even when the creation is then refused. */
  function Create(s: Store, l: Limits, now: nat, token: Option<string>): (Store, Reply) {
    var pruned := Store(Unexpired(s.sessions, now), Recent(s.times, now, l.window));
    if |pruned.times| >= l.maxCreations then (pruned, RateLimited)
    else if |Live(pruned.sessions, now)| >= l.maxSessions then (pruned, TooManySessions)
    else if token.None? then (pruned, NoToken)
    else
      (Store(pruned.sessions[token.value := SessionRecord(now + l.ttl, Active)], pruned.times + [now]), Created)
  }

  function CloseRecord(s: Store, id: string): Store {
    if id !in s.sessions then s else s.(sessions := s.sessions[id := s.sessions[id].(state := Closed)])
  }

  // ---- The store object ----------------------------------------------------

  class SessionStore {
    var sessions: map<string, SessionRecord>
    var times: seq<nat>

    ghost function View(): Store
      reads this
    {
      Store(sessions, times)
    }

    constructor ()
      ensures View() == Store(map[], [])
    {
      sessions, times := map[], [];
    }

    method RetainRecent(now: nat, window: nat)
      modifies this`times
      ensures times == Recent(old(times), now, window)
    {
      var kept: seq<nat> := [];
      var all := times;
      for i := 0 to |all|
        invariant kept == Recent(all[..i], now, window)
        invariant times == all
      {
        assert all[..i + 1][..i] == all[..i];
        if Elapsed(now, all[i]) < window {
          kept := kept + [all[i]];
        }
      }
      assert all[..|all|] == all;
      times := kept;
    }

    method CreateSession(l: Limits, now: nat, token: Option<string>) returns (reply: Reply)
      modifies this
      ensures (View(), reply) == Create(old(View()), l, now, token)
    {
      sessions := Unexpired(sessions, now);
      RetainRecent(now, l.window);
      if |times| >= l.maxCreations { return RateLimited; }
      if |Live(sessions, now)| >= l.maxSessions { return TooManySessions; }
      if token.None? { return NoToken; }
      times := times + [now];
      sessions := sessions[token.value := SessionRecord(now + l.ttl, Active)];
      reply := Created;
    }

    method CloseSession(id: string)
      modifies this`sessions
      ensures View() == CloseRecord(old(View()), id)
    {
      if id in sessions {
        sessions := sessions[id := sessions[id].(state := Closed)];
      }
    }
  }

  // ---- Whole runs ----------------------------------------------------------

  /** Requests in the order they take the lock; `now` was read before taking it. */
  datatype Request = CreateAt(now: nat, token: Option<string>) | CloseId(id: string)

  /** The store, the times of all successful creations so far, and the latest time used. */
  datatype History = History(store: Store, created: seq<nat>, latest: nat)

  function Handled(h: History, l: Limits, r: Request): History {
    match r
    case CreateAt(now, token) =>
      var (store, reply) := Create(h.store, l, now, token);
      History(store, if reply == Created then h.created + [now] else h.created,
              if now >= h.latest then now else h.latest)
    case CloseId(id) => h.(store := CloseRecord(h.store, id))
  }

  function AfterRequests(l: Limits, requests: seq<Request>): History {
    if requests == [] then History(Store(map[], []), [], 0)
    else Handled(AfterRequests(l, requests[..|requests| - 1]), l, requests[|requests| - 1])
  }

  /** In lock order, no clock reading lies more than `lag` behind an earlier one. */
  ghost predicate Lagging(requests: seq<Request>, lag: nat) {
    forall i, j :: 0 <= i < j < |requests| && requests[i].CreateAt? && requests[j].CreateAt? ==>
      requests[i].now <= requests[j].now + lag
  }

  /** Creations with `from <= t < from + length`. */
  function CountIn(times: seq<nat>, from: nat, length: nat): nat {
    if times == [] then 0
    else
      var t := times[|times| - 1];
      CountIn(times[..|times| - 1], from, length) + if from <= t < from + length then 1 else 0
  }

  lemma {:induction false} CountAtMost(times: seq<nat>, from: nat, length: nat)
    ensures CountIn(times, from, length) <= |times|
  {
    if times != [] {
      CountAtMost(times[..|times| - 1], from, length);
    }
  }

  lemma CountPush(times: seq<nat>, t: nat, from: nat, length: nat)
    ensures CountIn(times + [t], from, length) ==
      CountIn(times, from, length) + if from <= t < from + length then 1 else 0
  {
  }

  // ---- The creation limit --------------------------------------------------

  /** Whatever the store has forgotten lies a whole window before the latest clock reading. */
  ghost predicate Remembers(h: History, l: Limits) {
    forall from: nat, length: nat :: from + l.window > h.latest ==>
      CountIn(h.created, from, length) <= CountIn(h.store.times, from, length)
  }

  ghost predicate WithinLimit(created: seq<nat>, l: Limits, length: nat) {
    forall from: nat :: CountIn(created, from, length) <= l.maxCreations
  }

  /** Pruning at `now` drops nothing from a window that starts inside the last `window`. */
  lemma {:induction false} RecentKeeps(times: seq<nat>, now: nat, window: nat, from: nat, length: nat)
    requires window > 0 && from + window > now
    ensures CountIn(Recent(times, now, window), from, length) == CountIn(times, from, length)
  {
    if times != [] {
      var before, t := times[..|times| - 1], times[|times| - 1];
      RecentKeeps(before, now, window, from, length);
      CountPush(Recent(before, now, window), t, from, length);
    }
  }

  lemma CreateRemembers(h: History, l: Limits, now: nat, token: Option<string>)
    requires ValidLimits(l) && Remembers(h, l)
    ensures Remembers(Handled(h, l, CreateAt(now, token)), l)
  {
    hide CountIn, Live, Recent, Unexpired;
    var h' := Handled(h, l, CreateAt(now, token));
    forall from: nat, length: nat | from + l.window > h'.latest
      ensures CountIn(h'.created, from, length) <= CountIn(h'.store.times, from, length)
    {
      RecentKeeps(h.store.times, now, l.window, from, length);
      CountPush(h.created, now, from, length);
      CountPush(Recent(h.store.times, now, l.window), now, from, length);
    }
  }

  lemma CreateWithinLimit(h: History, l: Limits, now: nat, token: Option<string>, lag: nat, length: nat)
    requires ValidLimits(l) && Remembers(h, l) && WithinLimit(h.created, l, length)
    requires length + lag <= l.window && h.latest <= now + lag
    ensures WithinLimit(Handled(h, l, CreateAt(now, token)).created, l, length)
  {
    hide CountIn, Live, Recent, Unexpired;
    if Create(h.store, l, now, token).1 == Created {
      var kept := Recent(h.store.times, now, l.window);
      forall from: nat ensures CountIn(h.created + [now], from, length) <= l.maxCreations {
        CountPush(h.created, now, from, length);
        if from <= now < from + length {
          RecentKeeps(h.store.times, now, l.window, from, length);
          CountAtMost(kept, from, length);
        }
      }
    }
  }

  lemma {:induction false} LatestAtMost(l: Limits, requests: seq<Request>, t: nat)
    requires forall i :: 0 <= i < |requests| && requests[i].CreateAt? ==> requests[i].now <= t
    ensures AfterRequests(l, requests).latest <= t
  {
    if requests != [] {
      LatestAtMost(l, requests[..|requests| - 1], t);
    }
  }

  lemma {:induction false} LimitKept(l: Limits, requests: seq<Request>, lag: nat, length: nat)
    requires ValidLimits(l) && Lagging(requests, lag) && length + lag <= l.window
    ensures var h := AfterRequests(l, requests); Remembers(h, l) && WithinLimit(h.created, l, length)
  {
    if requests != [] {
      hide CountIn, Create;
      var n := |requests| - 1;
      var h := AfterRequests(l, requests[..n]);
      LimitKept(l, requests[..n], lag, length);
      match requests[n] {
        case CreateAt(now, token) =>
          LatestAtMost(l, requests[..n], now + lag);
          CreateRemembers(h, l, now, token);
          CreateWithinLimit(h, l, now, token, lag, length);
        case CloseId(id) =>
          assert CloseRecord(h.store, id).times == h.store.times;
      }
    }
  }

  /** Clock readings in lock order: every half-open window of the configured length obeys the limit. */
  lemma SlidingWindow(l: Limits, requests: seq<Request>, from: nat)
    requires ValidLimits(l) && Lagging(requests, 0)
    ensures CountIn(AfterRequests(l, requests).created, from, l.window) <= l.maxCreations
  {
    LimitKept(l, requests, 0, l.window);
  }

  // ---- How much a late clock reading costs ---------------------------------

  /** `n` creations at time zero with distinct tokens, each closed at once. */
  function Burst(n: nat): seq<Request> {
    if n == 0 then [] else Burst(n - 1) + [CreateAt(0, Some(Token(n))), CloseId(Token(n))]
  }

  function Token(n: nat): string { seq(n, _ => 'a') }

  /** A full burst, a creation that finds no randomness a window later, and a late one. */
  function LateRun(l: Limits, late: nat): seq<Request> {
    Burst(l.maxCreations) + [CreateAt(l.window, None)] + [CreateAt(late, Some(Token(0)))]
  }

  /** What a creation does to the times when there is room in the window and nothing is live. */
  lemma Admits(h: History, l: Limits, now: nat, id: string)
    requires ValidLimits(l) && |Recent(h.store.times, now, l.window)| < l.maxCreations
    requires forall t :: Live(h.store.sessions, t) == {}
    ensures var h' := Handled(h, l, CreateAt(now, Some(id)));
      && h'.store.times == Recent(h.store.times, now, l.window) + [now] && h'.created == h.created + [now]
      && forall t :: Live(h'.store.sessions, t) <= {id}
  {
    assert forall t :: Live(Unexpired(h.store.sessions, now), t) <= Live(h.store.sessions, t);
    assert Live(Unexpired(h.store.sessions, now), now) == {};
    var h' := Handled(h, l, CreateAt(now, Some(id)));
    assert forall t :: Live(h'.store.sessions, t) - {id} <= Live(h.store.sessions, t);
  }

  lemma Closes(h: History, l: Limits, id: string)
    requires forall t :: Live(h.store.sessions, t) <= {id}
    ensures forall t :: Live(CloseRecord(h.store, id).sessions, t) == {}
  {
    forall t ensures Live(CloseRecord(h.store, id).sessions, t) == {} {
      forall i | i in Live(CloseRecord(h.store, id).sessions, t) ensures i in Live(h.store.sessions, t) && i != id {}
    }
  }

  function Zeros(n: nat): seq<nat> { seq(n, _ => 0) }

  lemma {:induction false} ZerosRecent(n: nat, now: nat, window: nat)
    ensures Recent(Zeros(n), now, window) == if now < window then Zeros(n) else []
  {
    if n == 0 {
      assert Zeros(0) == [];
    } else {
      assert Zeros(n)[..n - 1] == Zeros(n - 1) && Zeros(n - 1) + [0] == Zeros(n);
      ZerosRecent(n - 1, now, window);
    }
  }

  lemma {:induction false} BurstFills(l: Limits, n: nat)
    requires ValidLimits(l) && n <= l.maxCreations
    ensures var h := AfterRequests(l, Burst(n));
      h.created == h.store.times == Zeros(n) && h.latest == 0 && forall t :: Live(h.store.sessions, t) == {}
  {
    if n == 0 {
      assert AfterRequests(l, []).store.sessions == map[];
    } else {
      hide Live, Recent, CloseRecord, Handled;
      BurstFills(l, n - 1);
      var h := AfterRequests(l, Burst(n - 1));
      BurstStep(h, l, n);
      AfterTwo(l, Burst(n - 1), CreateAt(0, Some(Token(n))), CloseId(Token(n)));
    }
  }

  lemma AfterTwo(l: Limits, requests: seq<Request>, r: Request, r': Request)
    ensures AfterRequests(l, requests + [r, r']) == Handled(Handled(AfterRequests(l, requests), l, r), l, r')
  {
    hide Handled;
    assert (requests + [r, r'])[..|requests| + 1] == requests + [r];
    assert (requests + [r])[..|requests|] == requests;
  }

  lemma BurstStep(h: History, l: Limits, n: nat)
    requires ValidLimits(l) && 0 < n <= l.maxCreations && h.created == h.store.times == Zeros(n - 1) && h.latest == 0
    requires forall t :: Live(h.store.sessions, t) == {}
    ensures var h' := Handled(Handled(h, l, CreateAt(0, Some(Token(n)))), l, CloseId(Token(n)));
      h'.created == h'.store.times == Zeros(n) && h'.latest == 0 && forall t :: Live(h'.store.sessions, t) == {}
  {
    hide Live, Recent, Create;
    ZerosRecent(n - 1, 0, l.window);
    Admits(h, l, 0, Token(n));
    Closes(Handled(h, l, CreateAt(0, Some(Token(n)))), l, Token(n));
    assert Zeros(n - 1) + [0] == Zeros(n);
  }

  lemma {:induction false} CountZeros(n: nat, length: nat)
    requires length > 0
    ensures CountIn(Zeros(n), 0, length) == n
  {
    if n > 0 {
      CountZeros(n - 1, length);
      CountPush(Zeros(n - 1), 0, 0, length);
      assert Zeros(n - 1) + [0] == Zeros(n);
    }
  }

  lemma LateRunCreates(l: Limits, late: nat)
    requires ValidLimits(l)
    ensures AfterRequests(l, LateRun(l, late)).created == Zeros(l.maxCreations) + [late]
  {
    var burst := Burst(l.maxCreations);
    BurstFills(l, l.maxCreations);
    var h0 := AfterRequests(l, burst);
    ZerosRecent(l.maxCreations, l.window, l.window);
    var h1 := Handled(h0, l, CreateAt(l.window, None));
    assert h1.store.times == [] && h1.created == h0.created;
    assert forall t :: Live(h1.store.sessions, t) <= Live(h0.store.sessions, t);
    Admits(h1, l, late, Token(0));
    var mid := burst + [CreateAt(l.window, None)];
    assert mid[..|mid| - 1] == burst;
    assert LateRun(l, late)[..|LateRun(l, late)| - 1] == mid;
  }

  lemma {:induction false} BurstTimes(n: nat)
    ensures forall i :: 0 <= i < |Burst(n)| && Burst(n)[i].CreateAt? ==> Burst(n)[i].now == 0
  {
    if n > 0 { BurstTimes(n - 1); }
  }

  /**
   * Over all runs whose clock readings lag by at most `lag`, windows of the given length obey the
   * limit exactly when the length and the lag together fit in the configured window.
   */
  lemma WindowExactly(l: Limits, lag: nat, length: nat)
    requires ValidLimits(l) && length > 0
    ensures (forall requests | Lagging(requests, lag) :: WithinLimit(AfterRequests(l, requests).created, l, length))
       <==> length + lag <= l.window
  {
    if length + lag <= l.window {
      forall requests | Lagging(requests, lag) ensures WithinLimit(AfterRequests(l, requests).created, l, length) {
        LimitKept(l, requests, lag, length);
      }
    } else {
      var late := if lag <= l.window then l.window - lag else 0;
      var run := LateRun(l, late);
      BurstTimes(l.maxCreations);
      assert Lagging(run, lag);
      LateRunCreates(l, late);
      CountZeros(l.maxCreations, length);
      CountPush(Zeros(l.maxCreations), late, 0, length);
      assert !WithinLimit(AfterRequests(l, run).created, l, length);
    }
  }

  // ---- The cap on live sessions --------------------------------------------

  lemma CountSubset(a: set<string>, b: set<string>)
    requires a <= b
    ensures |a| <= |b|
  {
    assert b == a + (b - a);
  }

  lemma LiveShrinks(sessions: map<string, SessionRecord>, now: nat, later: nat)
    requires now <= later
    ensures |Live(sessions, later)| <= |Live(sessions, now)|
  {
    CountSubset(Live(sessions, later), Live(sessions, now));
  }

  lemma CreateKeepsCap(h: History, l: Limits, now: nat, token: Option<string>)
    requires |Live(h.store.sessions, h.latest)| <= l.maxSessions
    ensures var h' := Handled(h, l, CreateAt(now, token)); |Live(h'.store.sessions, h'.latest)| <= l.maxSessions
  {
    var h' := Handled(h, l, CreateAt(now, token));
    var kept := Unexpired(h.store.sessions, now);
    if Create(h.store, l, now, token).1 == Created {
      CountSubset(Live(h'.store.sessions, now), Live(kept, now) + {token.value});
      LiveShrinks(h'.store.sessions, now, h'.latest);
    } else {
      CountSubset(Live(kept, h'.latest), Live(h.store.sessions, h.latest));
    }
  }

  lemma {:induction false} CapKept(l: Limits, requests: seq<Request>)
    ensures var h := AfterRequests(l, requests); |Live(h.store.sessions, h.latest)| <= l.maxSessions
  {
    if requests == [] {
      assert Live(map[], 0) == {};
    } else {
      var n := |requests| - 1;
      var h := AfterRequests(l, requests[..n]);
      CapKept(l, requests[..n]);
      match requests[n] {
        case CreateAt(now, token) => CreateKeepsCap(h, l, now, token);
        case CloseId(id) =>
          CountSubset(Live(CloseRecord(h.store, id).sessions, h.latest), Live(h.store.sessions, h.latest));
      }
    }
  }

  /** At every instant no earlier than the requests, however late they were, the live sessions obey the cap. */
  lemma LiveSessionsCapped(l: Limits, requests: seq<Request>, now: nat)
    requires forall i :: 0 <= i < |requests| && requests[i].CreateAt? ==> requests[i].now <= now
    ensures |Live(AfterRequests(l, requests).store.sessions, now)| <= l.maxSessions
  {
    CapKept(l, requests);
    LatestAtMost(l, requests, now);
    var h := AfterRequests(l, requests);
    LiveShrinks(h.store.sessions, h.latest, now);
  }

  // ---- What a request is answered ------------------------------------------

  lemma {:induction false} RecentExactly(times: seq<nat>, now: nat, window: nat, t: nat)
    ensures multiset(Recent(times, now, window))[t] == if Elapsed(now, t) < window then multiset(times)[t] else 0
  {
    if times != [] {
      var n := |times| - 1;
      RecentExactly(times[..n], now, window, t);
      assert times == times[..n] + [times[n]];
    }
  }

  /**
   * A creation is refused for the rate first, then for the live sessions, then for want of a token,
   * and otherwise made; expired sessions never count, whether they have been pruned or not.
   */
  lemma RepliesExactly(s: Store, l: Limits, now: nat, token: Option<string>)
    ensures var recent, live := |Recent(s.times, now, l.window)|, |Live(s.sessions, now)|;
      var reply := Create(s, l, now, token).1;
      && (reply == RateLimited <==> recent >= l.maxCreations)
      && (reply == TooManySessions <==> recent < l.maxCreations && live >= l.maxSessions)
      && (reply == NoToken <==> recent < l.maxCreations && live < l.maxSessions && token.None?)
      && (reply == Created <==> recent < l.maxCreations && live < l.maxSessions && token.Some?)
  {
    assert Live(Unexpired(s.sessions, now), now) == Live(s.sessions, now);
    hide Recent, Live, Unexpired;
  }

  // ---- The life of a session -----------------------------------------------

  ghost predicate Kept(s: Store, id: string, expiry: nat) {
    id in s.sessions && s.sessions[id] == SessionRecord(expiry, Active)
  }

  ghost predicate Gone(s: Store, id: string) { id !in s.sessions }

  /** A request that neither closes the session nor draws its token again keeps it, or prunes it once expired. */
  lemma KeptStep(h: History, l: Limits, r: Request, id: string, expiry: nat)
    requires Kept(h.store, id, expiry) || (Gone(h.store, id) && expiry <= h.latest)
    requires r != CloseId(id) && !Redraws(r, id)
    ensures var h' := Handled(h, l, r); Kept(h'.store, id, expiry) || (Gone(h'.store, id) && expiry <= h'.latest)
  {
    hide Live, Recent;
  }

  lemma {:induction false} KeptThrough(l: Limits, requests: seq<Request>, k: nat, id: string, expiry: nat)
    requires k <= |requests|
    requires Kept(AfterRequests(l, requests[..k]).store, id, expiry)
    requires forall i :: k <= i < |requests| ==> requests[i] != CloseId(id) && !Redraws(requests[i], id)
    ensures var h := AfterRequests(l, requests);
      Kept(h.store, id, expiry) || (Gone(h.store, id) && expiry <= h.latest)
  {
    hide Handled, Kept, Gone, Redraws, Create;
    if k == |requests| {
      assert requests[..k] == requests;
    } else {
      var n := |requests| - 1;
      assert requests[..n][..k] == requests[..k];
      KeptThrough(l, requests[..n], k, id, expiry);
      KeptStep(AfterRequests(l, requests[..n]), l, requests[n], id, expiry);
    }
  }

  /**
   * A session created at request `k` is live, at every instant no earlier than the requests, exactly
   * until its creation plus the time to live, as long as it is not closed and its token not drawn again.
   */
  lemma LiveExactlyUntilExpiry(l: Limits, requests: seq<Request>, k: nat, id: string, now: nat)
    requires k < |requests| && Redraws(requests[k], id)
    requires Create(AfterRequests(l, requests[..k]).store, l, requests[k].now, Some(id)).1 == Created
    requires forall i :: k < i < |requests| ==> requests[i] != CloseId(id) && !Redraws(requests[i], id)
    requires forall i :: 0 <= i < |requests| && requests[i].CreateAt? ==> requests[i].now <= now
    ensures id in Live(AfterRequests(l, requests).store.sessions, now) <==> now < requests[k].now + l.ttl
  {
    var before := requests[..k + 1];
    assert before[..k] == requests[..k];
    assert Kept(AfterRequests(l, before).store, id, requests[k].now + l.ttl);
    KeptThrough(l, requests, k + 1, id, requests[k].now + l.ttl);
    LatestAtMost(l, requests, now);
    hide AfterRequests, Create;
  }

  /** After a creation is attempted no active session past its expiry is left, and every closed one still is. */
  lemma ExpiredArePruned(s: Store, l: Limits, now: nat, token: Option<string>, id: string)
    requires ValidLimits(l)
    ensures var s' := Create(s, l, now, token).0;
      && (id in s'.sessions && s'.sessions[id].state == Active ==> now < s'.sessions[id].expiresAt)
      && (id in s.sessions && s.sessions[id].state == Closed ==> id in s'.sessions)
  {
    hide Live, Recent;
  }

  // ---- Closed sessions -----------------------------------------------------

  ghost predicate IsClosed(s: Store, id: string) {
    id in s.sessions && s.sessions[id].state == Closed
  }

  ghost predicate Redraws(r: Request, id: string) { r.CreateAt? && r.token == Some(id) }

  /** A closed record is kept and stays closed unless a creation succeeds with the very same token. */
  lemma ClosedStep(h: History, l: Limits, r: Request, id: string)
    requires IsClosed(h.store, id)
    ensures IsClosed(Handled(h, l, r).store, id) <==>
      !(Redraws(r, id) && Create(h.store, l, r.now, r.token).1 == Created)
  {
  }

  lemma {:induction false} ClosedStaysClosed(l: Limits, requests: seq<Request>, k: nat, id: string)
    requires k <= |requests| && IsClosed(AfterRequests(l, requests[..k]).store, id)
    requires forall i :: k <= i < |requests| ==> !Redraws(requests[i], id)
    ensures IsClosed(AfterRequests(l, requests).store, id)
  {
    hide Handled, Create, IsClosed, Redraws;
    if k == |requests| {
      assert requests[..k] == requests;
    } else {
      var n := |requests| - 1;
      assert requests[..n][..k] == requests[..k];
      ClosedStaysClosed(l, requests[..n], k, id);
      ClosedStep(AfterRequests(l, requests[..n]), l, requests[n], id);
    }
  }
}
