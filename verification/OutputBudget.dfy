/**
 * The byte budget that concurrent output readers share through one atomic counter.
 *
 * Every atomic access, buffer append and exit is one step of one reader; a run is any interleaving
 * of steps of any number of readers. A relaxed load may observe any value the counter has held, and
 * the weak compare-and-swap may fail even when it would have matched.
 */
module OutputBudget {
  import opened Common

  const BUFFER := 16 * 1024

  /** Where a reader stands in `read_limited` and the `reserve_output` it calls. */
  datatype Pc =
    | Reading                    // about to read the next chunk
    | Loading                    // about to load the counter
    | Reserving(current: nat)    // holds an observed value, about to compare and swap
    | Appending                  // reservation granted, chunk not yet appended
    | Returned
    | OverLimit(seen: nat)       // gave up on the limit after observing `seen`
    | Overflowed(seen: nat)      // gave up on the addition overflowing
    | Stopped                    // the read failed, or the task was aborted there

  /** `input` is every byte the reader has been handed; `granted` every byte reserved for it. */
  datatype Reader = Reader(pc: Pc, chunk: seq<byte>, output: seq<byte>, input: seq<byte>, granted: nat)

  const FRESH := Reader(Reading, [], [], [], 0)

  /** The counter, the values it has held, and the readers. */
  datatype Pool = Pool(total: nat, held: set<nat>, readers: seq<Reader>)

  datatype Step =
    | Read(chunk: seq<byte>)
    | EndOfFile
    | Load(observed: nat)
    | CompareAndSwap(weakFailure: bool, observed: nat)
    | Append
    | Stop

  function StartPool(n: nat): Pool { Pool(0, {0}, seq(n, _ => FRESH)) }

  /** One step of reader `i`; a step that is not possible there changes nothing. */
  function Take(p: Pool, limit: nat, wordMax: nat, i: nat, s: Step): (p': Pool)
    requires i < |p.readers|
    ensures |p'.readers| == |p.readers|
  {
    var r := p.readers[i];
    match s
    case Read(chunk) =>
      if r.pc != Reading || !(0 < |chunk| <= BUFFER) then p
      else p.(readers := p.readers[i := r.(pc := Loading, chunk := chunk, input := r.input + chunk)])
    case EndOfFile => if r.pc != Reading then p else p.(readers := p.readers[i := r.(pc := Returned)])
    case Load(observed) =>
      if r.pc != Loading || observed !in p.held then p
      else p.(readers := p.readers[i := r.(pc := Reserving(observed))])
    case CompareAndSwap(weakFailure, observed) =>
      if r.pc.Reserving? then Swap(p, limit, wordMax, i, weakFailure, observed) else p
    case Append =>
      if r.pc != Appending then p
      else p.(readers := p.readers[i := r.(pc := Reading, chunk := [], output := r.output + r.chunk)])
    case Stop => if r.pc != Reading then p else p.(readers := p.readers[i := r.(pc := Stopped)])
  }

  function Swap(p: Pool, limit: nat, wordMax: nat, i: nat, weakFailure: bool, observed: nat): Pool
    requires i < |p.readers| && p.readers[i].pc.Reserving?
  {
    var r := p.readers[i];
    var current := r.pc.current;
    var next := current + |r.chunk|;
    if next > wordMax then p.(readers := p.readers[i := r.(pc := Overflowed(current))])
    else if next > limit then p.(readers := p.readers[i := r.(pc := OverLimit(current))])
    else if current == p.total && !weakFailure then
      Pool(next, p.held + {next}, p.readers[i := r.(pc := Appending, granted := r.granted + |r.chunk|)])
    else if observed in p.held then p.(readers := p.readers[i := r.(pc := Reserving(observed))])
    else p
  }

  /** A schedule names the reader that moves and the step it takes. */
  datatype Turn = Turn(reader: nat, step: Step)

  function AfterTurns(n: nat, limit: nat, wordMax: nat, turns: seq<Turn>): (p: Pool)
    ensures |p.readers| == n
  {
    if turns == [] then StartPool(n)
    else
      var p := AfterTurns(n, limit, wordMax, turns[..|turns| - 1]);
      var t := turns[|turns| - 1];
      if t.reader >= n then p else Take(p, limit, wordMax, t.reader, t.step)
  }

  // ---- Sums ----------------------------------------------------------------

  function Granted(readers: seq<Reader>): nat {
    if readers == [] then 0 else Granted(readers[..|readers| - 1]) + readers[|readers| - 1].granted
  }

  function Collected(readers: seq<Reader>): nat {
    if readers == [] then 0 else Collected(readers[..|readers| - 1]) + |readers[|readers| - 1].output|
  }

  lemma {:induction false} GrantedUpdate(readers: seq<Reader>, i: nat, r: Reader)
    requires i < |readers|
    ensures Granted(readers[i := r]) == Granted(readers) - readers[i].granted + r.granted
  {
    var n := |readers| - 1;
    if i == n {
      assert readers[i := r][..n] == readers[..n];
    } else {
      assert readers[i := r][..n] == readers[..n][i := r];
      GrantedUpdate(readers[..n], i, r);
    }
  }

  lemma {:induction false} GrantedFresh(n: nat)
    ensures Granted(seq(n, _ => FRESH)) == 0
  {
    if n > 0 {
      assert seq(n, _ => FRESH)[..n - 1] == seq(n - 1, _ => FRESH);
      GrantedFresh(n - 1);
    }
  }

  // ---- The invariant -------------------------------------------------------

  /** A reader's own books: what it was granted is what it holds, and what it holds is what it read. */
  ghost predicate Honest(r: Reader) {
    && r.granted == |r.output| + (if r.pc.Appending? then |r.chunk| else 0)
    && (r.pc.Reading? || r.pc.Returned? ==> r.output == r.input)
    && (r.pc.Loading? || r.pc.Reserving? || r.pc.Appending? ==> r.output + r.chunk == r.input)
    && |r.output| <= |r.input| && r.output == r.input[..|r.output|]
  }

  /** An observation a reader acts on never exceeds the counter. */
  ghost predicate Justified(p: Pool, limit: nat, wordMax: nat, r: Reader) {
    && (r.pc.Reserving? ==> r.pc.current <= p.total)
    && (r.pc.OverLimit? ==> r.pc.seen <= p.total && r.pc.seen + |r.chunk| > limit)
    && (r.pc.Overflowed? ==> r.pc.seen <= p.total && r.pc.seen + |r.chunk| > wordMax)
  }

  ghost predicate WithinBudget(p: Pool, limit: nat, wordMax: nat) {
    && p.total == Granted(p.readers) <= limit
    && p.total in p.held && (forall v :: v in p.held ==> v <= p.total)
    && (forall i :: 0 <= i < |p.readers| ==> Honest(p.readers[i]) && Justified(p, limit, wordMax, p.readers[i]))
  }

  lemma ReaderMoves(p: Pool, limit: nat, wordMax: nat, i: nat, r: Reader)
    requires WithinBudget(p, limit, wordMax) && i < |p.readers|
    requires Honest(r) && Justified(p, limit, wordMax, r) && r.granted == p.readers[i].granted
    ensures WithinBudget(p.(readers := p.readers[i := r]), limit, wordMax)
  {
    GrantedUpdate(p.readers, i, r);
  }

  lemma ReservationGranted(p: Pool, limit: nat, wordMax: nat, i: nat)
    requires WithinBudget(p, limit, wordMax) && i < |p.readers| && p.readers[i].pc == Reserving(p.total)
    requires p.total + |p.readers[i].chunk| <= limit
    ensures var r := p.readers[i];
      var next := p.total + |r.chunk|;
      WithinBudget(Pool(next, p.held + {next}, p.readers[i := r.(pc := Appending, granted := r.granted + |r.chunk|)]),
                   limit, wordMax)
  {
    var r := p.readers[i];
    GrantedUpdate(p.readers, i, r.(pc := Appending, granted := r.granted + |r.chunk|));
  }

  lemma SwapKeeps(p: Pool, limit: nat, wordMax: nat, i: nat, weakFailure: bool, observed: nat)
    requires WithinBudget(p, limit, wordMax) && i < |p.readers| && p.readers[i].pc.Reserving?
    ensures WithinBudget(Swap(p, limit, wordMax, i, weakFailure, observed), limit, wordMax)
  {
    BudgetOf(p, limit, wordMax, i);
    hide WithinBudget;
    var r := p.readers[i];
    var next := r.pc.current + |r.chunk|;
    if next > wordMax {
      ReaderMoves(p, limit, wordMax, i, r.(pc := Overflowed(r.pc.current)));
    } else if next > limit {
      ReaderMoves(p, limit, wordMax, i, r.(pc := OverLimit(r.pc.current)));
    } else if r.pc.current == p.total && !weakFailure {
      ReservationGranted(p, limit, wordMax, i);
    } else if observed in p.held {
      ReaderMoves(p, limit, wordMax, i, r.(pc := Reserving(observed)));
    }
  }

  lemma TakeKeeps(p: Pool, limit: nat, wordMax: nat, i: nat, s: Step)
    requires WithinBudget(p, limit, wordMax) && i < |p.readers|
    ensures WithinBudget(Take(p, limit, wordMax, i, s), limit, wordMax)
    ensures p.total <= Take(p, limit, wordMax, i, s).total
  {
    hide WithinBudget;
    var p' := Take(p, limit, wordMax, i, s);
    if s.CompareAndSwap? {
      if p.readers[i].pc.Reserving? {
        SwapKeeps(p, limit, wordMax, i, s.weakFailure, s.observed);
      }
    } else if p' != p {
      BudgetOf(p, limit, wordMax, i);
      ReaderMoves(p, limit, wordMax, i, p'.readers[i]);
    }
  }

  lemma BudgetOf(p: Pool, limit: nat, wordMax: nat, i: nat)
    requires WithinBudget(p, limit, wordMax) && i < |p.readers|
    ensures Honest(p.readers[i]) && Justified(p, limit, wordMax, p.readers[i])
    ensures forall v :: v in p.held ==> v <= p.total
  {
  }

  /**
   * In every interleaving of any number of readers the counter equals the sum of the granted
   * reservations and never exceeds the limit, every observation acted on is at most the counter,
   * and every reader's output is a prefix of what it read, the whole of it once it has returned.
   */
  lemma {:induction false} BudgetHolds(n: nat, limit: nat, wordMax: nat, turns: seq<Turn>)
    ensures WithinBudget(AfterTurns(n, limit, wordMax, turns), limit, wordMax)
  {
    if turns == [] {
      GrantedFresh(n);
    } else {
      hide WithinBudget, Take;
      var before, t := turns[..|turns| - 1], turns[|turns| - 1];
      BudgetHolds(n, limit, wordMax, before);
      if t.reader < n {
        TakeKeeps(AfterTurns(n, limit, wordMax, before), limit, wordMax, t.reader, t.step);
      }
    }
  }

  lemma {:induction false} CollectedWithinGranted(readers: seq<Reader>)
    requires forall i :: 0 <= i < |readers| ==> Honest(readers[i])
    ensures Collected(readers) <= Granted(readers)
  {
    if readers != [] {
      CollectedWithinGranted(readers[..|readers| - 1]);
    }
  }

  /** All output collected so far, over all readers, stays within the limit at every moment. */
  lemma OutputWithinLimit(n: nat, limit: nat, wordMax: nat, turns: seq<Turn>)
    ensures Collected(AfterTurns(n, limit, wordMax, turns).readers) <= limit
  {
    BudgetHolds(n, limit, wordMax, turns);
    CollectedWithinGranted(AfterTurns(n, limit, wordMax, turns).readers);
  }

  lemma {:induction false} CounterGrows(n: nat, limit: nat, wordMax: nat, turns: seq<Turn>, k: nat)
    requires k <= |turns|
    ensures AfterTurns(n, limit, wordMax, turns[..k]).total <= AfterTurns(n, limit, wordMax, turns).total
  {
    if k == |turns| {
      assert turns[..k] == turns;
    } else {
      var before, t := turns[..|turns| - 1], turns[|turns| - 1];
      assert before[..k] == turns[..k];
      CounterGrows(n, limit, wordMax, before, k);
      BudgetHolds(n, limit, wordMax, before);
      hide WithinBudget, Take;
      if t.reader < n {
        TakeKeeps(AfterTurns(n, limit, wordMax, before), limit, wordMax, t.reader, t.step);
      }
    }
  }

  /** A reader refused on the limit could not have been granted its chunk then, nor at any time after. */
  lemma RefusalJustified(n: nat, limit: nat, wordMax: nat, turns: seq<Turn>, k: nat, i: nat)
    requires k <= |turns| && i < n
    requires AfterTurns(n, limit, wordMax, turns[..k]).readers[i].pc.OverLimit?
    ensures AfterTurns(n, limit, wordMax, turns).total
      + |AfterTurns(n, limit, wordMax, turns[..k]).readers[i].chunk| > limit
  {
    BudgetHolds(n, limit, wordMax, turns[..k]);
    CounterGrows(n, limit, wordMax, turns, k);
    hide AfterTurns;
    BudgetOf(AfterTurns(n, limit, wordMax, turns[..k]), limit, wordMax, i);
  }

  /** When both pipes of a shell command are drained, their outputs together fit the limit, byte for byte. */
  lemma ShellOutputWithinLimit(limit: nat, wordMax: nat, turns: seq<Turn>)
    ensures var rs := AfterTurns(2, limit, wordMax, turns).readers;
      rs[0].pc.Returned? && rs[1].pc.Returned? ==>
        && rs[0].output == rs[0].input && rs[1].output == rs[1].input
        && |rs[0].output| + |rs[1].output| <= limit
  {
    BudgetHolds(2, limit, wordMax, turns);
    OutputWithinLimit(2, limit, wordMax, turns);
    hide AfterTurns;
    var rs := AfterTurns(2, limit, wordMax, turns).readers;
    assert rs[..1][..0] == [];
    assert rs[..1] == [rs[0]];
    assert Collected(rs[..1]) == |rs[0].output|;
    assert Collected(rs) == |rs[0].output| + |rs[1].output|;
  }

  // ---- A reader on its own -------------------------------------------------

  function Took(p: Pool, limit: nat, wordMax: nat, i: nat, steps: seq<Step>): (p': Pool)
    requires i < |p.readers|
    ensures |p'.readers| == |p.readers|
    decreases |steps|
  {
    if steps == [] then p else Took(Take(p, limit, wordMax, i, steps[0]), limit, wordMax, i, steps[1..])
  }

  /** The reader is about to read, with the counter's value among those it has held. */
  ghost predicate Ready(p: Pool, i: nat) {
    i < |p.readers| && p.readers[i].pc == Reading && p.readers[i].chunk == [] && p.total in p.held
  }

  /** A failed exchange is tried again with the value it observed. */
  lemma ExchangeRetries(p: Pool, limit: nat, wordMax: nat, i: nat, weakFailure: bool, observed: nat)
    requires i < |p.readers| && p.readers[i].pc.Reserving? && observed in p.held
    requires p.readers[i].pc.current + |p.readers[i].chunk| <= Min(limit, wordMax)
    requires weakFailure || p.readers[i].pc.current != p.total
    ensures var p' := Take(p, limit, wordMax, i, CompareAndSwap(weakFailure, observed));
      p' == p.(readers := p.readers[i := p.readers[i].(pc := Reserving(observed))])
  {
  }

  /** What happens to one chunk while nobody else moves. */
  lemma ChunkAlone(p: Pool, limit: nat, wordMax: nat, i: nat, chunk: seq<byte>)
    requires Ready(p, i) && 0 < |chunk| <= BUFFER && limit <= wordMax
    ensures var p' := Took(p, limit, wordMax, i, [Read(chunk), Load(p.total), CompareAndSwap(false, p.total), Append]);
      if p.total + |chunk| <= limit then
        Ready(p', i) && p'.total == p.total + |chunk| && p'.readers[i].output == p.readers[i].output + chunk
      else p'.total == p.total && p'.readers[i].pc.OverLimit? == (p.total + |chunk| <= wordMax)
           && !p'.readers[i].pc.Reading? && p'.readers[i].output == p.readers[i].output
  {
    var s := [Read(chunk), Load(p.total), CompareAndSwap(false, p.total), Append];
    var p1 := Take(p, limit, wordMax, i, s[0]);
    var p2 := Take(p1, limit, wordMax, i, s[1]);
    var p3 := Take(p2, limit, wordMax, i, s[2]);
    var p4 := Take(p3, limit, wordMax, i, s[3]);
    assert s[1..][1..] == s[2..] && s[2..][1..] == s[3..] && s[3..][1..] == [];
    assert Took(p3, limit, wordMax, i, s[3..]) == Took(p4, limit, wordMax, i, []);
    assert Took(p2, limit, wordMax, i, s[2..]) == p4 && Took(p1, limit, wordMax, i, s[1..]) == p4;
  }

  function Sum(chunks: seq<seq<byte>>): nat { if chunks == [] then 0 else |chunks[0]| + Sum(chunks[1..]) }

  function Flat(chunks: seq<seq<byte>>): seq<byte> { if chunks == [] then [] else chunks[0] + Flat(chunks[1..]) }

  /** The reader takes the chunks one after the other and returns at the end of the file. */
  function ReadAlone(p: Pool, limit: nat, wordMax: nat, i: nat, chunks: seq<seq<byte>>): (p': Pool)
    requires i < |p.readers|
    ensures |p'.readers| == |p.readers|
    decreases |chunks|
  {
    if chunks == [] then Take(p, limit, wordMax, i, EndOfFile)
    else
      ReadAlone(Took(p, limit, wordMax, i, [Read(chunks[0]), Load(p.total), CompareAndSwap(false, p.total), Append]),
                limit, wordMax, i, chunks[1..])
  }

  lemma {:induction false} StuckAlone(p: Pool, limit: nat, wordMax: nat, i: nat, chunks: seq<seq<byte>>)
    requires i < |p.readers| && (p.readers[i].pc.OverLimit? || p.readers[i].pc.Overflowed?)
    ensures ReadAlone(p, limit, wordMax, i, chunks) == p
    decreases |chunks|
  {
    if chunks != [] {
      var s := [Read(chunks[0]), Load(p.total), CompareAndSwap(false, p.total), Append];
      assert s[1..][1..] == s[2..] && s[2..][1..] == s[3..] && s[3..][1..] == [];
      assert Took(p, limit, wordMax, i, s[3..]) == Took(p, limit, wordMax, i, []);
      assert Took(p, limit, wordMax, i, s[2..]) == p && Took(p, limit, wordMax, i, s[1..]) == p;
      StuckAlone(p, limit, wordMax, i, chunks[1..]);
    }
  }

  /** A reader that moves alone returns all it reads exactly when that fits what is left of the limit. */
  lemma {:induction false} AloneExactly(p: Pool, limit: nat, wordMax: nat, i: nat, chunks: seq<seq<byte>>)
    requires Ready(p, i) && limit <= wordMax && p.total <= limit
    requires forall k :: 0 <= k < |chunks| ==> 0 < |chunks[k]| <= BUFFER
    ensures var r := ReadAlone(p, limit, wordMax, i, chunks).readers[i];
      && (r.pc == Returned <==> p.total + Sum(chunks) <= limit)
      && (r.pc == Returned ==> r.output == p.readers[i].output + Flat(chunks))
    decreases |chunks|
  {
    if chunks != [] {
      ChunkAlone(p, limit, wordMax, i, chunks[0]);
      var p' := Took(p, limit, wordMax, i, [Read(chunks[0]), Load(p.total), CompareAndSwap(false, p.total), Append]);
      if p.total + |chunks[0]| <= limit {
        AloneExactly(p', limit, wordMax, i, chunks[1..]);
        var output, rest := p.readers[i].output, Flat(chunks[1..]);
        assert output + chunks[0] + rest == output + (chunks[0] + rest);
      } else {
        GivesUp(p, limit, wordMax, i, chunks[0]);
        StuckAlone(p', limit, wordMax, i, chunks[1..]);
      }
    }
  }

  lemma GivesUp(p: Pool, limit: nat, wordMax: nat, i: nat, chunk: seq<byte>)
    requires Ready(p, i) && 0 < |chunk| <= BUFFER && limit <= wordMax && p.total + |chunk| > limit
    ensures var p' := Took(p, limit, wordMax, i, [Read(chunk), Load(p.total), CompareAndSwap(false, p.total), Append]);
      p'.readers[i].pc.OverLimit? || p'.readers[i].pc.Overflowed?
  {
    var s := [Read(chunk), Load(p.total), CompareAndSwap(false, p.total), Append];
    var p1 := Take(p, limit, wordMax, i, s[0]);
    var p2 := Take(p1, limit, wordMax, i, s[1]);
    var p3 := Take(p2, limit, wordMax, i, s[2]);
    assert s[1..][1..] == s[2..] && s[2..][1..] == s[3..] && s[3..][1..] == [];
    assert Took(p3, limit, wordMax, i, s[3..]) == Took(p3, limit, wordMax, i, []);
    assert Took(p2, limit, wordMax, i, s[2..]) == p3 && Took(p1, limit, wordMax, i, s[1..]) == p3;
  }
}
