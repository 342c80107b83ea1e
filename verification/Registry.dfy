/** The stream registry: a wrapping id allocator over the map of active streams. */
module Registry {
  import opened Common

  datatype StreamKind = Http | File | Tcp | WebSocket | Shell

  datatype StreamEntry = StreamEntry(id: u32, kind: StreamKind, path: string)

  datatype RegistryError = EmptyPath | ZeroId | AlreadyActive | UnknownId | Exhausted

  /** A registry as a value. */
  datatype Reg = Reg(nextId: u32, active: map<u32, StreamEntry>, closedCount: u64)

  const NEW := Reg(1, map[], 0)

  // ---- Ids in cyclic order -------------------------------------------------

  /** `id.wrapping_add(1).max(1)`. */
  function NextAfter(id: u32): u32 { if id == U32_MAX then 1 else id + 1 }

  function AtLeastOne(id: u32): u32 { if id == 0 then 1 else id }

  /** The id `k` places after `start` among the non-zero ids. */
  function Cyclic(start: u32, k: nat): u32
    requires start != 0 && k < U32_MAX
  {
    if start + k <= U32_MAX then start + k else start + k - U32_MAX
  }

  function Distance(start: u32, id: u32): nat
    requires start != 0 && id != 0
  {
    if id >= start then id - start else id - start + U32_MAX
  }

  /** The first id not active, from place `k` on. */
  function FirstFree(active: set<u32>, start: u32, k: nat): Option<u32>
    requires start != 0 && k <= U32_MAX
    decreases U32_MAX - k
  {
    if k == U32_MAX then None
    else if Cyclic(start, k) !in active then Some(Cyclic(start, k))
    else FirstFree(active, start, k + 1)
  }

  lemma {:induction false} FirstFreeFrom(active: set<u32>, start: u32, k: nat)
    requires start != 0 && k <= U32_MAX
    ensures var r := FirstFree(active, start, k);
      && (r.Some? ==> r.value != 0 && r.value !in active && k <= Distance(start, r.value))
      && forall id :: id != 0 && id !in active && k <= Distance(start, id) ==>
           r.Some? && Distance(start, r.value) <= Distance(start, id)
    decreases U32_MAX - k
  {
    if k < U32_MAX {
      assert Distance(start, Cyclic(start, k)) == k;
      if Cyclic(start, k) in active {
        FirstFreeFrom(active, start, k + 1);
        forall id | id != 0 && id !in active && k <= Distance(start, id)
          ensures k + 1 <= Distance(start, id)
        {
          assert Cyclic(start, Distance(start, id)) == id;
        }
      }
    }
  }

  /** The search finds the nearest free id in cyclic order, and fails exactly when none is free. */
  lemma FirstFreeExactly(active: set<u32>, start: u32)
    requires start != 0
    ensures var r := FirstFree(active, start, 0);
      && (r.None? <==> forall id: u32 :: id != 0 ==> id in active)
      && (r.Some? ==> r.value != 0 && r.value !in active)
      && (forall id: u32 :: r.Some? && id != 0 && id !in active ==> Distance(start, r.value) <= Distance(start, id))
  {
    FirstFreeFrom(active, start, 0);
  }

  // ---- Operations as functions ---------------------------------------------

  datatype Outcome = Outcome(reg: Reg, result: Result<StreamEntry, RegistryError>)

  function Open(r: Reg, kind: StreamKind, path: string): Outcome {
    if Blank(path) then Outcome(r, Err(EmptyPath))
    else
      var start := AtLeastOne(r.nextId);
      var id := FirstFree(r.active.Keys, start, 0);
      if id.None? then Outcome(r.(nextId := start), Err(Exhausted))
      else
        var entry := StreamEntry(id.value, kind, path);
        Outcome(Reg(NextAfter(id.value), r.active[id.value := entry], r.closedCount), Ok(entry))
  }

  function Accept(r: Reg, id: u32, kind: StreamKind, path: string): Outcome {
    if id == 0 then Outcome(r, Err(ZeroId))
    else if Blank(path) then Outcome(r, Err(EmptyPath))
    else if id in r.active then Outcome(r, Err(AlreadyActive))
    else
      var entry := StreamEntry(id, kind, path);
      var next := if id >= r.nextId then NextAfter(id) else r.nextId;
      Outcome(Reg(next, r.active[id := entry], r.closedCount), Ok(entry))
  }

  function SaturatingAdd(a: u64, b: nat): u64 { if a + b <= U64_MAX then a + b else U64_MAX }

  function Close(r: Reg, id: u32): Outcome {
    if id !in r.active then Outcome(r, Err(UnknownId))
    else Outcome(r.(active := r.active - {id}, closedCount := SaturatingAdd(r.closedCount, 1)), Ok(r.active[id]))
  }

  function Clear(r: Reg): Reg {
    r.(active := map[], closedCount := SaturatingAdd(r.closedCount, |r.active|))
  }

  /** A stream opens exactly when it has a path and some id is free, on the nearest free id. */
  lemma OpensExactly(r: Reg, kind: StreamKind, path: string)
    ensures var o := Open(r, kind, path);
      && (o.result.Ok? <==> !Blank(path) && exists id: u32 :: id != 0 && id !in r.active)
      && (o.result == Err(EmptyPath) <==> Blank(path))
      && (o.result == Err(Exhausted) <==> !Blank(path) && forall id: u32 :: id != 0 ==> id in r.active)
      && (o.result.Ok? ==>
            var e := o.result.value;
            e == StreamEntry(e.id, kind, path) && e.id != 0 && e.id !in r.active && o.reg.active == r.active[e.id := e])
      && (o.result.Err? ==> o.reg.active == r.active) && o.reg.closedCount == r.closedCount
  {
    FirstFreeExactly(r.active.Keys, AtLeastOne(r.nextId));
    hide FirstFree;
  }

  /** An id is accepted exactly when it is not zero, has a path and is not active. */
  lemma AcceptsExactly(r: Reg, id: u32, kind: StreamKind, path: string)
    ensures var o := Accept(r, id, kind, path);
      && (o.result == Ok(StreamEntry(id, kind, path)) <==> o.result.Ok?)
      && (o.result.Ok? <==> id != 0 && !Blank(path) && id !in r.active)
      && (o.result == Err(ZeroId) <==> id == 0)
      && (o.result == Err(EmptyPath) <==> id != 0 && Blank(path))
      && (o.result == Err(AlreadyActive) <==> id != 0 && !Blank(path) && id in r.active)
      && (if o.result.Ok? then o.reg.active == r.active[id := o.result.value] else o.reg == r)
  {
  }

  // ---- The registry object -------------------------------------------------

  class StreamRegistry {
    var nextId: u32
    var active: map<u32, StreamEntry>
    var closedCount: u64

    ghost function View(): Reg
      reads this
    {
      Reg(nextId, active, closedCount)
    }

    constructor ()
      ensures View() == NEW
    {
      nextId, active, closedCount := 1, map[], 0;
    }

    /** The search loop: it stops at a free id or after one full turn. */
    method AllocateId() returns (r: Option<u32>)
      modifies this`nextId
      ensures r == FirstFree(active.Keys, AtLeastOne(old(nextId)), 0)
      ensures nextId == if r.Some? then NextAfter(r.value) else AtLeastOne(old(nextId))
    {
      var start := AtLeastOne(nextId);
      ghost var k := 0;
      while true
        invariant k < U32_MAX && AtLeastOne(nextId) == Cyclic(start, k)
        invariant FirstFree(active.Keys, start, k) == FirstFree(active.Keys, start, 0)
        decreases U32_MAX - k
      {
        var candidate := AtLeastOne(nextId);
        nextId := NextAfter(candidate);
        if candidate !in active {
          return Some(candidate);
        }
        if nextId == start {
          assert k + 1 == U32_MAX;
          return None;
        }
        k := k + 1;
      }
    }

    method OpenStream(kind: StreamKind, path: string) returns (r: Result<StreamEntry, RegistryError>)
      modifies this
      ensures Outcome(View(), r) == Open(old(View()), kind, path)
    {
      if Blank(path) { return Err(EmptyPath); }
      var id := AllocateId();
      if id.None? { return Err(Exhausted); }
      var entry := StreamEntry(id.value, kind, path);
      active := active[id.value := entry];
      r := Ok(entry);
    }

    method AcceptStream(id: u32, kind: StreamKind, path: string) returns (r: Result<StreamEntry, RegistryError>)
      modifies this
      ensures Outcome(View(), r) == Accept(old(View()), id, kind, path)
    {
      if id == 0 { return Err(ZeroId); }
      if Blank(path) { return Err(EmptyPath); }
      if id in active { return Err(AlreadyActive); }
      if id >= nextId { nextId := NextAfter(id); }
      var entry := StreamEntry(id, kind, path);
      active := active[id := entry];
      r := Ok(entry);
    }

    method CloseStream(id: u32) returns (r: Result<StreamEntry, RegistryError>)
      modifies this
      ensures Outcome(View(), r) == Close(old(View()), id)
    {
      if id !in active { return Err(UnknownId); }
      var entry := active[id];
      active := active - {id};
      closedCount := SaturatingAdd(closedCount, 1);
      r := Ok(entry);
    }

    method ClearStreams()
      modifies this
      ensures View() == Clear(old(View()))
    {
      closedCount := SaturatingAdd(closedCount, |active|);
      active := map[];
    }
  }

  // ---- Whole runs ----------------------------------------------------------

  datatype Op =
    | OpenOp(kind: StreamKind, path: string)
    | AcceptOp(id: u32, kind: StreamKind, path: string)
    | CloseOp(id: u32)
    | ClearOp

  function Apply(r: Reg, op: Op): Outcome {
    match op
    case OpenOp(kind, path) => Open(r, kind, path)
    case AcceptOp(id, kind, path) => Accept(r, id, kind, path)
    case CloseOp(id) => Close(r, id)
    case ClearOp => Outcome(Clear(r), Err(UnknownId))
  }

  /** A registry with its history: ids ever opened or accepted, and exact counts. */
  datatype History = History(reg: Reg, used: set<u32>, admitted: nat, closed: nat)

  function Record(h: History, op: Op): History {
    var o := Apply(h.reg, op);
    var admits := (op.OpenOp? || op.AcceptOp?) && o.result.Ok?;
    History(o.reg,
      if admits then h.used + {o.result.value.id} else h.used,
      if admits then h.admitted + 1 else h.admitted,
      if op.ClearOp? then h.closed + |h.reg.active|
      else if op.CloseOp? && o.result.Ok? then h.closed + 1
      else h.closed)
  }

  function After(ops: seq<Op>): History {
    if ops == [] then History(NEW, {}, 0, 0) else Record(After(ops[..|ops| - 1]), ops[|ops| - 1])
  }

  ghost predicate Consistent(h: History) {
    && h.admitted == |h.reg.active| + h.closed
    && h.reg.closedCount == Min(h.closed, U64_MAX)
    && h.reg.nextId != 0
    && h.reg.active.Keys <= h.used
    && (forall id :: id in h.reg.active ==> id != 0 && h.reg.active[id].id == id)
    && (U32_MAX !in h.used ==> forall id :: id in h.used ==> id < h.reg.nextId)
  }

  /** Admitting an inactive id keeps the books, provided the next id stays above the used ones. */
  lemma AdmitKeeps(h: History, entry: StreamEntry, next: u32)
    requires Consistent(h) && entry.id != 0 && entry.id !in h.reg.active && next != 0
    requires U32_MAX !in h.used && entry.id != U32_MAX ==> h.reg.nextId <= next && entry.id < next
    ensures Consistent(History(
      Reg(next, h.reg.active[entry.id := entry], h.reg.closedCount), h.used + {entry.id}, h.admitted + 1, h.closed))
  {
  }

  lemma OpenKeeps(h: History, kind: StreamKind, path: string)
    requires Consistent(h)
    ensures Consistent(Record(h, OpenOp(kind, path)))
    ensures var o := Open(h.reg, kind, path);
      o.result.Ok? ==> o.result.value.id !in h.reg.active && (U32_MAX !in h.used ==> o.result.value.id == h.reg.nextId)
  {
    var start := h.reg.nextId;
    FirstFreeExactly(h.reg.active.Keys, start);
    hide FirstFree, Cyclic;
    var o := Open(h.reg, kind, path);
    if o.result.Ok? {
      var entry := o.result.value;
      if U32_MAX !in h.used {
        assert Distance(start, entry.id) <= Distance(start, start);
        assert entry.id == start;
      }
      AdmitKeeps(h, entry, NextAfter(entry.id));
    }
  }

  lemma CloseKeeps(h: History, id: u32)
    requires Consistent(h)
    ensures Consistent(Record(h, CloseOp(id)))
  {
  }

  lemma RecordKeeps(h: History, op: Op)
    requires Consistent(h)
    ensures Consistent(Record(h, op))
  {
    hide FirstFree;
    match op
    case OpenOp(kind, path) => OpenKeeps(h, kind, path);
    case AcceptOp(id, kind, path) =>
      var o := Accept(h.reg, id, kind, path);
      if o.result.Ok? { AdmitKeeps(h, o.result.value, o.reg.nextId); }
    case CloseOp(id) => CloseKeeps(h, id);
    case ClearOp =>
  }

  /**
   * Over every run: streams admitted are streams active plus streams closed, the stored count of
   * closed streams is that exact number up to saturation, and every active id is non-zero and
   * was admitted.
   */
  lemma {:induction false} StreamsConserved(ops: seq<Op>)
    ensures Consistent(After(ops))
  {
    if ops != [] {
      StreamsConserved(ops[..|ops| - 1]);
      RecordKeeps(After(ops[..|ops| - 1]), ops[|ops| - 1]);
    }
  }

  /**
   * In any run, an opened id is never an active one, and it exceeds every id opened or accepted
   * before it exactly when the largest id was never used.
   */
  lemma OpenedIdsFresh(ops: seq<Op>, kind: StreamKind, path: string)
    requires Open(After(ops).reg, kind, path).result.Ok?
    ensures var h := After(ops);
      var id := Open(h.reg, kind, path).result.value.id;
      && id !in h.reg.active
      && ((forall u :: u in h.used ==> u < id) <==> U32_MAX !in h.used)
  {
    StreamsConserved(ops);
    OpenKeeps(After(ops), kind, path);
  }

  /** Accepting the largest id wraps the allocator: the next open reuses a closed id. */
  lemma LargestIdWraps()
    ensures var ops := [OpenOp(Shell, "/"), CloseOp(1), AcceptOp(U32_MAX, Shell, "/")];
      var h := After(ops);
      1 in h.used && Open(h.reg, Shell, "/").result == Ok(StreamEntry(1, Shell, "/"))
  {
    var a, b, c := OpenOp(Shell, "/"), CloseOp(1), AcceptOp(U32_MAX, Shell, "/");
    assert "/"[0] == '/' && !Blank("/");
    assert [a, b, c][..2] == [a, b] && [a, b][..1] == [a] && [a][..0] == [];
    assert FirstFree({}, 1, 0) == Some(1);
    assert Open(NEW, Shell, "/").result.value == StreamEntry(1, Shell, "/");
    assert After([a]).reg == Reg(2, map[1 := StreamEntry(1, Shell, "/")], 0);
    assert After([a, b]).reg == Reg(2, map[], 1);
    assert After([a, b, c]).reg == Reg(1, map[U32_MAX := StreamEntry(U32_MAX, Shell, "/")], 1);
    assert FirstFree({U32_MAX}, 1, 0) == Some(1);
  }

  /** With the sum below saturation the stored numbers themselves balance. */
  lemma StoredCountsBalance(ops: seq<Op>)
    requires After(ops).closed <= U64_MAX
    ensures After(ops).admitted == |After(ops).reg.active| + After(ops).reg.closedCount
  {
    StreamsConserved(ops);
  }
}
