/** The metadata store: objects, their immutable revisions and the search index, in one transaction. */
module RevisionStore {
  import opened Common

  // ---- Records and tables --------------------------------------------------

  /** The policy is carried along as opaque text. */
  datatype Metadata = Metadata(
    title: string,
    description: string,
    tags: seq<string>,
    sensitivity: int,
    policy: Option<string>,
    workspace: string,
    attributes: map<string, string>)

  datatype Object = Object(
    id: string,
    kind: int,
    schemaVersion: u32,
    metadata: Option<Metadata>,
    status: int,
    payloadRef: string,
    payloadHash: string,
    payloadSize: u64,
    mediaType: string,
    revision: u64,
    storageState: int,
    device: string,
    createdAt: i64,
    updatedAt: i64,
    lastUsedAt: i64)

  datatype Row = Row(
    kind: string,
    schemaVersion: u32,
    title: string,
    description: string,
    sensitivity: string,
    status: string,
    workspace: Option<string>,
    payloadRef: string,
    payloadHash: string,
    payloadSize: i64,
    mediaType: string,
    revision: i64,
    storageState: string,
    device: Option<string>,
    createdAt: i64,
    updatedAt: i64,
    lastUsedAt: Option<i64>)

  datatype Revision = Revision(payloadRef: string, payloadHash: string, payloadSize: i64, change: string,
                               summary: Option<string>, createdAt: i64)

  datatype SearchRow = SearchRow(id: string, title: string, description: string, kind: string)

  /** `workspaces` and `devices` are the rows foreign keys may point to. */
  datatype Db = Db(objects: map<string, Row>, revisions: map<(string, i64), Revision>, search: seq<SearchRow>,
                   workspaces: set<string>, devices: set<string>)

  datatype StoreError = Invalid | Missing | Conflict(expected: i64, received: i64) | Constraint

  // ---- Encodings -----------------------------------------------------------

  /** `n + 1` on 64 bits. */
  function Succ(n: i64): i64 { if n == I64_MAX then -I64_MAX - 1 else n + 1 }

  function EmptyToNone(s: string): Option<string> { if s == "" then None else Some(s) }

  function ZeroToNone(n: i64): Option<i64> { if n == 0 then None else Some(n) }

  /** The stored names of an enumeration by number, its names on the wire, and what unknown values become. */
  datatype Enumeration = Enumeration(prefix: string, stored: seq<string>, wire: seq<string>, fallback: nat)

  const SENSITIVITY := Enumeration("SENSITIVITY_",
    ["unspecified", "public", "internal", "sensitive", "secret"],
    ["UNSPECIFIED", "PUBLIC", "INTERNAL", "SENSITIVE", "SECRET"], 2)

  const STATUS := Enumeration("OBJECT_STATUS_",
    ["unspecified", "draft", "active", "archived", "revoked", "deleted"],
    ["UNSPECIFIED", "DRAFT", "ACTIVE", "ARCHIVED", "REVOKED", "DELETED"], 2)

  const STORAGE_STATE := Enumeration("STORAGE_STATE_",
    ["unspecified", "staged", "ready", "deleting", "corrupt"],
    ["UNSPECIFIED", "STAGED", "READY", "DELETING", "CORRUPT"], 2)

  const DELETED := 5

  predicate Named(e: Enumeration, value: int) { 1 <= value < |e.stored| }

  /** The name a number is stored under; unspecified and unknown numbers take the fallback's. */
  function StoredName(e: Enumeration, value: int): string
    requires e.fallback < |e.stored|
  {
    if Named(e, value) then e.stored[value] else e.stored[e.fallback]
  }

  /** The column's check: one of the stored names, unspecified excluded. */
  predicate IsStored(e: Enumeration, text: string) {
    exists k :: 1 <= k < |e.stored| && e.stored[k] == text
  }

  /** The number of the wire name that the prefix and the stored text in capitals spell. */
  function ParseName(e: Enumeration, text: string): int {
    NumberOf(e, e.prefix + Capitals(text), 0)
  }

  function NumberOf(e: Enumeration, name: string, from: nat): int
    decreases |e.wire| - from
  {
    if from >= |e.wire| then e.fallback
    else if name == e.prefix + e.wire[from] then from
    else NumberOf(e, name, from + 1)
  }

  function CapitalChar(c: char): char { if 'a' <= c <= 'z' then c - 'a' + 'A' else c }

  function Capitals(s: string): string { seq(|s|, i requires 0 <= i < |s| => CapitalChar(s[i])) }

  const KIND_SUFFIXES := ["UNSPECIFIED", "NOTE", "MCP_SERVER", "PROVIDER", "PROFILE", "PROMPT", "SKILL",
                          "WORKSPACE_PACK", "BOOKMARK", "FILE_REFERENCE", "SECRET_PASSWORD", "SECRET_LOGIN",
                          "SECRET_WIFI", "SECRET_TOTP", "QR_CODE", "WEBHOOK", "BUTTON"]

  const KIND_PREFIX := "OBJECT_KIND_"

  /** The stored name of a kind; unknown numbers are stored as unspecified. */
  function KindName(kind: int): string {
    KIND_PREFIX + if 0 <= kind < |KIND_SUFFIXES| then KIND_SUFFIXES[kind] else KIND_SUFFIXES[0]
  }

  /** Capitals, with underscores for dots. */
  function Upper(s: string): string {
    seq(|s|, i requires 0 <= i < |s| => if s[i] == '.' then '_' else CapitalChar(s[i]))
  }

  /** The kind whose name is the prefix followed by the stored text in capitals, or unspecified. */
  function ParseKind(stored: string): (r: int) {
    KindNamed(KIND_PREFIX + Upper(stored), 0)
  }

  function KindNamed(name: string, from: nat): int
    requires from <= |KIND_SUFFIXES|
    decreases |KIND_SUFFIXES| - from
  {
    if from == |KIND_SUFFIXES| then 0
    else if name == KIND_PREFIX + KIND_SUFFIXES[from] then from
    else KindNamed(name, from + 1)
  }

  // ---- Statements ----------------------------------------------------------

  predicate ValidObject(o: Object) {
    && !Blank(o.id) && !Blank(o.payloadRef)
    && o.revision != 0 && !Blank(o.payloadHash)
    && o.metadata.Some? && !Blank(o.metadata.value.title)
  }

  predicate RefFree(objects: map<string, Row>, id: string, payloadRef: string) {
    forall other :: other in objects && other != id ==> objects[other].payloadRef != payloadRef
  }

  predicate RowChecks(db: Db, row: Row) {
    && row.payloadSize >= 0 && row.revision >= 1
    && IsStored(SENSITIVITY, row.sensitivity) && IsStored(STATUS, row.status)
    && IsStored(STORAGE_STATE, row.storageState)
    && (row.workspace.Some? ==> row.workspace.value in db.workspaces)
  }

  /** Checked on insertion only: an update does not touch the device. */
  predicate DeviceExists(db: Db, row: Row) { row.device.Some? ==> row.device.value in db.devices }

  const CHANGES := {"created", "updated", "imported", "applied", "restored", "merged"}

  function NewRow(o: Object): Row
    requires o.metadata.Some?
  {
    var m := o.metadata.value;
    Row(KindName(o.kind), o.schemaVersion, m.title, m.description, StoredName(SENSITIVITY, m.sensitivity),
        StoredName(STATUS, o.status), EmptyToNone(m.workspace), o.payloadRef, o.payloadHash, AsI64(o.payloadSize),
        o.mediaType, AsI64(o.revision), StoredName(STORAGE_STATE, o.storageState), EmptyToNone(o.device),
        o.createdAt, o.updatedAt, ZeroToNone(o.lastUsedAt))
  }

  /** An update leaves the kind, the schema version, the device and two of the times as they were. */
  function ChangedRow(row: Row, o: Object): Row
    requires o.metadata.Some?
  {
    NewRow(o).(kind := row.kind, schemaVersion := row.schemaVersion, device := row.device,
               createdAt := row.createdAt, lastUsedAt := row.lastUsedAt)
  }

  function NewRevision(o: Object, change: string, summary: Option<string>, at: i64): Revision {
    Revision(o.payloadRef, o.payloadHash, AsI64(o.payloadSize), change, summary, at)
  }

  function NewSearchRow(o: Object): SearchRow
    requires o.metadata.Some?
  {
    SearchRow(o.id, o.metadata.value.title, o.metadata.value.description, KindName(o.kind))
  }

  function Without(search: seq<SearchRow>, id: string): seq<SearchRow> {
    if search == [] then []
    else
      var rest := Without(search[..|search| - 1], id);
      var last := search[|search| - 1];
      if last.id == id then rest else rest + [last]
  }

  // ---- The two transactions as functions -----------------------------------

  function Insert(db: Db, o: Object, change: string): (Db, Option<StoreError>) {
    if !ValidObject(o) then (db, Some(Invalid))
    else
      var row := NewRow(o);
      if o.id in db.objects || !RefFree(db.objects, o.id, o.payloadRef) || !RowChecks(db, row) || !DeviceExists(db, row)
      then (db, Some(Constraint))
      else if (o.id, row.revision) in db.revisions || change !in CHANGES then (db, Some(Constraint))
      else
        var at := if o.updatedAt >= o.createdAt then o.updatedAt else o.createdAt;
        (db.(objects := db.objects[o.id := row],
             revisions := db.revisions[(o.id, row.revision) := NewRevision(o, change, None, at)],
             search := Without(db.search, o.id) + [NewSearchRow(o)]), None)
  }

  function Update(db: Db, o: Object, summary: string): (Db, Option<StoreError>) {
    if !ValidObject(o) then (db, Some(Invalid))
    else if o.id !in db.objects then (db, Some(Missing))
    else
      var revision, expected := AsI64(o.revision), Succ(db.objects[o.id].revision);
      if revision != expected then (db, Some(Conflict(expected, revision)))
      else
        var row := ChangedRow(db.objects[o.id], o);
        if !RefFree(db.objects, o.id, o.payloadRef) || !RowChecks(db, row) then (db, Some(Constraint))
        else if (o.id, revision) in db.revisions then (db, Some(Constraint))
        else
          (db.(objects := db.objects[o.id := row],
               revisions := db.revisions[(o.id, revision) := NewRevision(o, "updated", Some(summary), o.updatedAt)],
               search := Without(db.search, o.id) + [NewSearchRow(o)]), None)
  }

  // ---- The store object ----------------------------------------------------

  class SqliteStore {
    var objects: map<string, Row>
    var revisions: map<(string, i64), Revision>
    var search: seq<SearchRow>
    const workspaces: set<string>
    const devices: set<string>

    function View(): Db
      reads this
    {
      Db(objects, revisions, search, workspaces, devices)
    }

    constructor (workspaces: set<string>, devices: set<string>)
      ensures View() == Db(map[], map[], [], workspaces, devices)
    {
      objects, revisions, search := map[], map[], [];
      this.workspaces, this.devices := workspaces, devices;
    }

    method Rollback(saved: Db)
      requires saved.workspaces == workspaces && saved.devices == devices
      modifies this
      ensures View() == saved
    {
      objects, revisions, search := saved.objects, saved.revisions, saved.search;
    }

    /** Deletes the index rows of the object and inserts the new one. */
    method UpsertSearch(o: Object)
      requires o.metadata.Some?
      modifies this`search
      ensures search == Without(old(search), o.id) + [NewSearchRow(o)]
    {
      var kept: seq<SearchRow> := [];
      var all := search;
      for i := 0 to |all|
        invariant kept == Without(all[..i], o.id)
        invariant search == all
      {
        assert all[..i + 1][..i] == all[..i];
        if all[i].id != o.id {
          kept := kept + [all[i]];
        }
      }
      assert all[..|all|] == all;
      search := kept + [NewSearchRow(o)];
    }

    method InsertObject(o: Object, change: string) returns (error: Option<StoreError>)
      modifies this
      ensures (View(), error) == Insert(old(View()), o, change)
    {
      hide RowChecks, RefFree, DeviceExists, NewRow, NewRevision, NewSearchRow, Without;
      if !ValidObject(o) { return Some(Invalid); }
      var saved := View();
      var row := NewRow(o);
      if o.id in objects || !RefFree(objects, o.id, o.payloadRef)
         || !RowChecks(saved, row) || !DeviceExists(saved, row) {
        return Some(Constraint);
      }
      objects := objects[o.id := row];
      if (o.id, row.revision) in revisions || change !in CHANGES {
        Rollback(saved);
        return Some(Constraint);
      }
      var at := if o.updatedAt >= o.createdAt then o.updatedAt else o.createdAt;
      revisions := revisions[(o.id, row.revision) := NewRevision(o, change, None, at)];
      UpsertSearch(o);
      error := None;
    }

    method UpdateObject(o: Object, summary: string) returns (error: Option<StoreError>)
      modifies this
      ensures (View(), error) == Update(old(View()), o, summary)
    {
      hide RowChecks, RefFree, ChangedRow, NewRevision, NewSearchRow, Without;
      if !ValidObject(o) { return Some(Invalid); }
      if o.id !in objects { return Some(Missing); }
      var saved := View();
      var current := objects[o.id].revision;
      var revision := AsI64(o.revision);
      if revision != Succ(current) { return Some(Conflict(Succ(current), revision)); }
      var row := ChangedRow(objects[o.id], o);
      if !RefFree(objects, o.id, o.payloadRef) || !RowChecks(saved, row) { return Some(Constraint); }
      objects := objects[o.id := row];
      if (o.id, revision) in revisions {
        Rollback(saved);
        return Some(Constraint);
      }
      revisions := revisions[(o.id, revision) := NewRevision(o, "updated", Some(summary), o.updatedAt)];
      UpsertSearch(o);
      error := None;
    }
  }

  // ---- Whole runs ----------------------------------------------------------

  datatype Call = InsertCall(record: Object, change: string) | UpdateCall(record: Object, summary: string)

  /** The tables, the first revision of every object, and the commits in order. */
  datatype Ledger = Ledger(db: Db, first: map<string, i64>, log: seq<(string, i64)>)

  function Perform(db: Db, c: Call): (Db, Option<StoreError>) {
    match c
    case InsertCall(o, change) => Insert(db, o, change)
    case UpdateCall(o, summary) => Update(db, o, summary)
  }

  function Called(l: Ledger, c: Call): Ledger {
    var (db, error) := Perform(l.db, c);
    var o := c.record;
    if error.Some? then l.(db := db)
    else
      Ledger(db, if c.InsertCall? then l.first[o.id := AsI64(o.revision)] else l.first,
             l.log + [(o.id, AsI64(o.revision))])
  }

  function AfterCalls(workspaces: set<string>, devices: set<string>, calls: seq<Call>): Ledger {
    if calls == [] then Ledger(Db(map[], map[], [], workspaces, devices), map[], [])
    else Called(AfterCalls(workspaces, devices, calls[..|calls| - 1]), calls[|calls| - 1])
  }

  /** The revisions of an object are exactly the numbers from its first to its current one. */
  ghost predicate Contiguous(l: Ledger) {
    && l.first.Keys == l.db.objects.Keys
    && (forall id :: id in l.first ==> 1 <= l.first[id] <= l.db.objects[id].revision)
    && (forall id, r: i64 ::
          (id, r) in l.db.revisions <==> id in l.first && l.first[id] <= r <= l.db.objects[id].revision)
  }

  /** The row of an object shows the payload of its newest revision. */
  ghost predicate Current(db: Db) {
    forall id :: id in db.objects ==> ShowsNewest(db, id)
  }

  ghost predicate ShowsNewest(db: Db, id: string)
    requires id in db.objects
  {
    var row := db.objects[id];
    && (id, row.revision) in db.revisions
    && SamePayload(row, db.revisions[(id, row.revision)])
  }

  ghost predicate SamePayload(row: Row, v: Revision) {
    v.payloadRef == row.payloadRef && v.payloadHash == row.payloadHash && v.payloadSize == row.payloadSize >= 0
  }

  ghost predicate RefsDistinct(objects: map<string, Row>) {
    forall a, b :: a in objects && b in objects && a != b ==> objects[a].payloadRef != objects[b].payloadRef
  }

  ghost predicate LoggedOnce(l: Ledger) {
    && (forall i, j :: 0 <= i < j < |l.log| ==> l.log[i] != l.log[j])
    && (forall x :: x in l.log <==> x in l.db.revisions)
  }

  ghost predicate Describes(x: SearchRow, id: string, row: Row) {
    x.id == id && x.title == row.title && x.description == row.description
  }

  ghost predicate IdsDistinct(search: seq<SearchRow>) {
    forall i, j :: 0 <= i < j < |search| ==> search[i].id != search[j].id
  }

  /** Every object has one index row, with its current title and description, and there are no others. */
  ghost predicate Indexed(objects: map<string, Row>, search: seq<SearchRow>) {
    && IdsDistinct(search)
    && (forall x :: x in search ==> x.id in objects && Describes(x, x.id, objects[x.id]))
    && (forall id :: id in objects ==> exists x :: x in search && x.id == id)
  }

  ghost predicate Consistent(l: Ledger) {
    Contiguous(l) && Current(l.db) && RefsDistinct(l.db.objects) && LoggedOnce(l) && Indexed(l.db.objects, l.db.search)
  }

  // ---- What every call keeps -----------------------------------------------

  lemma {:induction false} WithoutExactly(search: seq<SearchRow>, id: string)
    requires IdsDistinct(search)
    ensures IdsDistinct(Without(search, id))
    ensures forall x :: x in Without(search, id) <==> x in search && x.id != id
  {
    if search != [] {
      var n := |search| - 1;
      var before, last := search[..n], search[n];
      WithoutExactly(before, id);
      assert search == before + [last];
      forall x | x in Without(before, id) ensures x.id != last.id {
        var i :| 0 <= i < n && before[i] == x;
        assert search[i].id != search[n].id;
      }
    }
  }

  /** What a committed call writes. */
  datatype Write = Write(id: string, row: Row, revision: Revision, entry: SearchRow)

  ghost predicate Agrees(w: Write) {
    SamePayload(w.row, w.revision) && w.row.revision >= 1 && Describes(w.entry, w.id, w.row)
  }

  function Committed(db: Db, w: Write): Db {
    db.(objects := db.objects[w.id := w.row],
        revisions := db.revisions[(w.id, w.row.revision) := w.revision],
        search := Without(db.search, w.id) + [w.entry])
  }

  function WriteOf(db: Db, c: Call): Write
    requires Perform(db, c).1.None?
  {
    var o := c.record;
    match c
    case InsertCall(_, change) =>
      var at := if o.updatedAt >= o.createdAt then o.updatedAt else o.createdAt;
      Write(o.id, NewRow(o), NewRevision(o, change, None, at), NewSearchRow(o))
    case UpdateCall(_, summary) =>
      Write(o.id, ChangedRow(db.objects[o.id], o), NewRevision(o, "updated", Some(summary), o.updatedAt),
            NewSearchRow(o))
  }

  /** Both transactions either leave everything as it was or write a whole agreeing set of rows. */
  lemma AllOrNothing(db: Db, c: Call)
    ensures var (db', error) := Perform(db, c);
      if error.Some? then db' == db
      else
        var w := WriteOf(db, c);
        && db' == Committed(db, w) && Agrees(w) && w.id == c.record.id && w.row.revision == AsI64(c.record.revision)
        && RefFree(db.objects, w.id, w.row.payloadRef) && (w.id, w.row.revision) !in db.revisions
        && (c.InsertCall? ==> w.id !in db.objects)
        && (c.UpdateCall? ==> w.id in db.objects && w.row.revision == db.objects[w.id].revision + 1)
  {
  }

  lemma IndexKept(objects: map<string, Row>, search: seq<SearchRow>, id: string, row: Row, entry: SearchRow)
    requires Indexed(objects, search) && Describes(entry, id, row)
    ensures Indexed(objects[id := row], Without(search, id) + [entry])
  {
    WithoutExactly(search, id);
    hide Without;
    var objects', search' := objects[id := row], Without(search, id) + [entry];
    forall i | i in objects' ensures exists x :: x in search' && x.id == i {
      if i == id {
        assert entry in search';
      } else {
        var x :| x in search && x.id == i;
        assert x in search';
      }
    }
  }

  lemma LogKept(l: Ledger, w: Write, first: map<string, i64>)
    requires LoggedOnce(l) && (w.id, w.row.revision) !in l.db.revisions
    ensures LoggedOnce(Ledger(Committed(l.db, w), first, l.log + [(w.id, w.row.revision)]))
  {
  }

  lemma ContiguousKept(l: Ledger, w: Write, inserted: bool, log: seq<(string, i64)>)
    requires Contiguous(l) && Agrees(w)
    requires
      if inserted then w.id !in l.db.objects
      else w.id in l.db.objects && w.row.revision == l.db.objects[w.id].revision + 1
    ensures Contiguous(Ledger(Committed(l.db, w), if inserted then l.first[w.id := w.row.revision] else l.first, log))
  {
    hide Without, Describes, SamePayload;
    var first := if inserted then l.first[w.id := w.row.revision] else l.first;
    var db := Committed(l.db, w);
    forall id, r: i64
      ensures (id, r) in db.revisions <==> id in first && first[id] <= r <= db.objects[id].revision
    {
      assert (id, r) in db.revisions <==> (id, r) in l.db.revisions || (id == w.id && r == w.row.revision);
    }
  }

  lemma CurrentKept(db: Db, w: Write)
    requires Current(db) && Agrees(w) && (w.id, w.row.revision) !in db.revisions
    ensures Current(Committed(db, w))
  {
  }

  lemma CallKeeps(l: Ledger, c: Call)
    requires Consistent(l)
    ensures Consistent(Called(l, c))
  {
    AllOrNothing(l.db, c);
    if Perform(l.db, c).1.None? {
      var w := WriteOf(l.db, c);
      hide Perform, WriteOf, Without, Agrees;
      ContiguousKept(l, w, c.InsertCall?, Called(l, c).log);
      CurrentKept(l.db, w);
      assert Describes(w.entry, w.id, w.row) by { AgreeingEntry(w); }
      IndexKept(l.db.objects, l.db.search, w.id, w.row, w.entry);
      LogKept(l, w, Called(l, c).first);
    }
  }

  lemma AgreeingEntry(w: Write)
    requires Agrees(w)
    ensures Describes(w.entry, w.id, w.row)
  {
  }

  /** In every run the tables agree with each other and with the history of commits. */
  lemma {:induction false} AlwaysConsistent(workspaces: set<string>, devices: set<string>, calls: seq<Call>)
    ensures Consistent(AfterCalls(workspaces, devices, calls))
  {
    if calls != [] {
      AlwaysConsistent(workspaces, devices, calls[..|calls| - 1]);
      CallKeeps(AfterCalls(workspaces, devices, calls[..|calls| - 1]), calls[|calls| - 1]);
    }
  }

  lemma RevisionsKept(l: Ledger, c: Call, key: (string, i64))
    requires key in l.db.revisions
    ensures var after := Called(l, c).db.revisions; key in after && after[key] == l.db.revisions[key]
  {
    AllOrNothing(l.db, c);
    hide Perform, WriteOf, Without, Agrees, RefFree;
  }

  /** A revision once written is never altered or lost, whatever is called afterwards. */
  lemma {:induction false} RevisionsImmutable(workspaces: set<string>, devices: set<string>, calls: seq<Call>, k: nat,
                                              key: (string, i64))
    requires k <= |calls| && key in AfterCalls(workspaces, devices, calls[..k]).db.revisions
    ensures var (before, after) :=
        (AfterCalls(workspaces, devices, calls[..k]).db.revisions, AfterCalls(workspaces, devices, calls).db.revisions);
      key in after && after[key] == before[key]
  {
    if k == |calls| {
      assert calls[..k] == calls;
    } else {
      hide Called;
      var n := |calls| - 1;
      assert calls[..n][..k] == calls[..k];
      RevisionsImmutable(workspaces, devices, calls[..n], k, key);
      RevisionsKept(AfterCalls(workspaces, devices, calls[..n]), calls[n], key);
    }
  }

  // ---- When a call commits -------------------------------------------------

  /** None of the texts an object needs is missing, and its revision is not zero. */
  ghost predicate Complete(o: Object) {
    && o.metadata.Some? && o.revision > 0
    && (forall text :: text in [o.id, o.payloadRef, o.payloadHash, o.metadata.value.title] ==> !Blank(text))
  }

  lemma CompleteExactly(o: Object)
    ensures ValidObject(o) <==> Complete(o)
  {
    if o.metadata.Some? {
      var texts := [o.id, o.payloadRef, o.payloadHash, o.metadata.value.title];
      assert texts[0] in texts && texts[1] in texts && texts[2] in texts && texts[3] in texts;
    }
    hide Blank;
  }

  ghost predicate Commits(l: Ledger, c: Call) { Perform(l.db, c).1.None? }

  /**
   * In a consistent store an update commits exactly when it names the next revision of a stored
   * object, its numbers fit, its payload reference is free and its workspace exists: the revision
   * table never refuses it.
   */
  lemma UpdateCommitsExactly(l: Ledger, o: Object, summary: string)
    requires Consistent(l)
    ensures Commits(l, UpdateCall(o, summary)) <==>
      && Complete(o) && o.id in l.db.objects
      && o.revision == l.db.objects[o.id].revision + 1 <= I64_MAX && o.payloadSize <= I64_MAX
      && RefFree(l.db.objects, o.id, o.payloadRef)
      && (o.metadata.value.workspace == "" || o.metadata.value.workspace in l.db.workspaces)
  {
    CompleteExactly(o);
    hide Without, Current, RefsDistinct, LoggedOnce, Indexed, Blank;
  }

  lemma InsertCommitsExactly(l: Ledger, o: Object, change: string)
    requires Consistent(l)
    ensures Commits(l, InsertCall(o, change)) <==>
      && Complete(o) && o.id !in l.db.objects && change in CHANGES
      && o.revision <= I64_MAX && o.payloadSize <= I64_MAX
      && RefFree(l.db.objects, o.id, o.payloadRef)
      && (o.metadata.value.workspace == "" || o.metadata.value.workspace in l.db.workspaces)
      && (o.device == "" || o.device in l.db.devices)
  {
    CompleteExactly(o);
    hide Without, Current, RefsDistinct, LoggedOnce, Indexed, Blank;
  }

  /** What a call that does not commit reports; past the largest revision the expected one wraps. */
  lemma ErrorsExactly(l: Ledger, c: Call)
    ensures var o, error := c.record, Perform(l.db, c).1;
      && (error == Some(Invalid) <==> !Complete(o))
      && (error == Some(Missing) <==> c.UpdateCall? && Complete(o) && o.id !in l.db.objects)
      && (error.Some? && error.value.Conflict? ==>
            && c.UpdateCall? && Complete(o) && o.id in l.db.objects
            && var current := l.db.objects[o.id].revision;
            && error.value.expected == (if current == I64_MAX then -I64_MAX - 1 else current + 1)
            && error.value.received == AsI64(o.revision) != error.value.expected)
      && (c.UpdateCall? && Complete(o) && o.id in l.db.objects ==>
            var current := l.db.objects[o.id].revision;
            1 <= current < I64_MAX && o.revision != current + 1 ==> error.Some? && error.value.Conflict?)
  {
    CompleteExactly(c.record);
    hide KindName, StoredName, Without, IsStored, RefFree, Blank, Complete;
  }

  /** Of all the calls of a run that carry the same object and revision, at most one commits. */
  lemma OneCommitPerRevision(workspaces: set<string>, devices: set<string>, calls: seq<Call>, i: nat, j: nat)
    requires i < j < |calls|
    requires calls[i].record.id == calls[j].record.id && calls[i].record.revision == calls[j].record.revision
    requires Commits(AfterCalls(workspaces, devices, calls[..i]), calls[i])
    ensures !Commits(AfterCalls(workspaces, devices, calls[..j]), calls[j])
  {
    hide Perform, WriteOf, Without, Agrees;
    var key := (calls[i].record.id, AsI64(calls[i].record.revision));
    assert calls[..i + 1][..i] == calls[..i];
    AllOrNothing(AfterCalls(workspaces, devices, calls[..i]).db, calls[i]);
    assert key in AfterCalls(workspaces, devices, calls[..i + 1]).db.revisions;
    assert calls[..j][..i + 1] == calls[..i + 1];
    RevisionsImmutable(workspaces, devices, calls[..j], i + 1, key);
    AllOrNothing(AfterCalls(workspaces, devices, calls[..j]).db, calls[j]);
  }

  // ---- Reading back --------------------------------------------------------

  /** `get_object`: deleted objects are hidden, and what has no column is read as its default. */
  function Get(db: Db, id: string): Option<Object> {
    if id !in db.objects || db.objects[id].status == "deleted" then None
    else
      var row := db.objects[id];
      var metadata := Metadata(row.title, row.description, [], ParseName(SENSITIVITY, row.sensitivity), None,
                               if row.workspace.Some? then row.workspace.value else "", map[]);
      Some(Object(id, ParseKind(row.kind), row.schemaVersion, Some(metadata), ParseName(STATUS, row.status),
                  row.payloadRef, row.payloadHash, AsU64(row.payloadSize), row.mediaType, AsU64(row.revision),
                  ParseName(STORAGE_STATE, row.storageState), if row.device.Some? then row.device.value else "",
                  row.createdAt, row.updatedAt, if row.lastUsedAt.Some? then row.lastUsedAt.value else 0))
  }

  /** The stored names in capitals are the wire names, and no two of those are the same. */
  ghost predicate Spelled(e: Enumeration) {
    && |e.stored| == |e.wire| && 1 <= e.fallback < |e.wire|
    && (forall k :: 0 <= k < |e.wire| ==> Capitals(e.stored[k]) == e.wire[k])
    && (forall j, k :: 0 <= j < k < |e.wire| ==> e.wire[j] != e.wire[k])
  }

  lemma SensitivitySpelled()
    ensures Spelled(SENSITIVITY)
  {
    assert Capitals("unspecified") == "UNSPECIFIED" && Capitals("public") == "PUBLIC";
    assert Capitals("internal") == "INTERNAL" && Capitals("sensitive") == "SENSITIVE" && Capitals("secret") == "SECRET";
    assert "PUBLIC"[0] != "SECRET"[0];
    hide Capitals;
  }

  lemma StatusSpelled()
    ensures Spelled(STATUS)
  {
    assert Capitals("unspecified") == "UNSPECIFIED" && Capitals("draft") == "DRAFT" && Capitals("active") == "ACTIVE";
    assert Capitals("archived") == "ARCHIVED" && Capitals("revoked") == "REVOKED" && Capitals("deleted") == "DELETED";
    assert "REVOKED"[0] != "DELETED"[0];
    hide Capitals;
  }

  lemma StorageStateSpelled()
    ensures Spelled(STORAGE_STATE)
  {
    assert Capitals("unspecified") == "UNSPECIFIED" && Capitals("staged") == "STAGED" && Capitals("ready") == "READY";
    assert Capitals("deleting") == "DELETING" && Capitals("corrupt") == "CORRUPT";
    hide Capitals;
  }

  lemma {:induction false} NumberFound(e: Enumeration, k: nat, from: nat)
    requires Spelled(e) && from <= k < |e.wire|
    ensures NumberOf(e, e.prefix + e.wire[k], from) == k
    decreases k - from
  {
    if from < k {
      assert (e.prefix + e.wire[from])[|e.prefix|..] == e.wire[from];
      assert (e.prefix + e.wire[k])[|e.prefix|..] == e.wire[k];
      NumberFound(e, k, from + 1);
    }
  }

  /** A number is read back exactly when it is named; all others come back as the fallback. */
  lemma NameReadsBack(e: Enumeration, value: int)
    requires Spelled(e)
    ensures ParseName(e, StoredName(e, value)) == if Named(e, value) then value else e.fallback
  {
    NumberFound(e, if Named(e, value) then value else e.fallback, 0);
  }

  lemma {:induction false} NoKindNamed(name: string, from: nat)
    requires from <= |KIND_SUFFIXES| && |name| > |KIND_PREFIX| && name[|KIND_PREFIX|] == 'O'
    ensures KindNamed(name, from) == 0
    decreases |KIND_SUFFIXES| - from
  {
    if from < |KIND_SUFFIXES| {
      assert KIND_SUFFIXES[from][0] != 'O';
      assert (KIND_PREFIX + KIND_SUFFIXES[from])[|KIND_PREFIX|] == KIND_SUFFIXES[from][0];
      NoKindNamed(name, from + 1);
    }
  }

  /** A text without the prefix, in any case and with dots for underscores, would be read as its kind. */
  lemma {:induction false} BareKindRead(text: string, k: nat, from: nat)
    requires from <= k < |KIND_SUFFIXES| && Upper(text) == KIND_SUFFIXES[k]
    requires forall j :: from <= j < k ==> KIND_SUFFIXES[j] != KIND_SUFFIXES[k]
    ensures KindNamed(KIND_PREFIX + Upper(text), from) == k
    ensures from == 0 ==> ParseKind(text) == k
    decreases k - from
  {
    hide Upper;
    if from < k {
      assert (KIND_PREFIX + KIND_SUFFIXES[from])[|KIND_PREFIX|..] == KIND_SUFFIXES[from];
      assert (KIND_PREFIX + KIND_SUFFIXES[k])[|KIND_PREFIX|..] == KIND_SUFFIXES[k];
      BareKindRead(text, k, from + 1);
    }
  }

  /** The stored name already has the prefix that reading adds again, so no kind is read back. */
  lemma KindLost(kind: int)
    ensures ParseKind(KindName(kind)) == 0
  {
    var stored := KindName(kind);
    assert stored[0] == 'O';
    assert Upper(stored)[0] == 'O';
    NoKindNamed(KIND_PREFIX + Upper(stored), 0);
  }

  function Normal(e: Enumeration, value: int): int { if Named(e, value) then value else e.fallback }

  /** What is left of an object once it has been stored: no kind, tags, policy or attributes. */
  function ReadBack(o: Object): Object
    requires o.metadata.Some?
  {
    var m := o.metadata.value;
    o.(kind := 0, status := Normal(STATUS, o.status), storageState := Normal(STORAGE_STATE, o.storageState),
       metadata := Some(m.(tags := [], sensitivity := Normal(SENSITIVITY, m.sensitivity), policy := None,
                           attributes := map[])))
  }

  lemma StoredDeleted(value: int)
    ensures StoredName(STATUS, value) == "deleted" <==> value == DELETED
  {
    assert "deleted"[2] == 'l' && "draft"[2] == 'a' && "active"[2] == 't';
    assert "archived"[2] == 'c' && "revoked"[2] == 'v';
  }

  function TextOrEmpty(s: Option<string>): string { if s.Some? then s.value else "" }

  /** What an update leaves of the row before, as it is read. */
  function Updated(o: Object, row: Row): Object
    requires o.metadata.Some?
  {
    ReadBack(o).(kind := ParseKind(row.kind), schemaVersion := row.schemaVersion, device := TextOrEmpty(row.device),
                 createdAt := row.createdAt, lastUsedAt := if row.lastUsedAt.Some? then row.lastUsedAt.value else 0)
  }

  lemma RowReadsBack(o: Object, row: Row, db: Db)
    requires o.metadata.Some? && o.id in db.objects && db.objects[o.id] == ChangedRow(row, o)
    requires o.payloadSize <= I64_MAX && o.revision <= I64_MAX
    ensures Get(db, o.id) == if o.status == DELETED then None else Some(Updated(o, row))
  {
    SensitivitySpelled();
    StatusSpelled();
    StorageStateSpelled();
    hide Spelled;
    NameReadsBack(SENSITIVITY, o.metadata.value.sensitivity);
    NameReadsBack(STATUS, o.status);
    NameReadsBack(STORAGE_STATE, o.storageState);
    StoredDeleted(o.status);
    hide ParseKind, KindName, ParseName, StoredName;
  }

  lemma NewRowReads(o: Object)
    requires o.metadata.Some?
    ensures ChangedRow(NewRow(o), o) == NewRow(o) && Updated(o, NewRow(o)) == ReadBack(o)
  {
    KindLost(o.kind);
    hide ParseKind, KindName, StoredName;
  }

  /** What a committed call writes over, the new row itself when there was none. */
  ghost function RowBefore(db: Db, o: Object): Row
    requires o.metadata.Some?
  {
    if o.id in db.objects then db.objects[o.id] else NewRow(o)
  }

  /** The row, the sizes and the other objects after a committed call. */
  lemma CommittedRow(l: Ledger, c: Call)
    requires Commits(l, c)
    ensures var o, db := c.record, Called(l, c).db;
      && o.metadata.Some? && o.payloadSize <= I64_MAX && o.revision <= I64_MAX
      && db.objects == l.db.objects[o.id := ChangedRow(RowBefore(l.db, o), o)]
  {
    if c.InsertCall? {
      NewRowReads(c.record);
    }
    hide KindName, StoredName, ParseKind, Without, IsStored, RefFree;
  }

  /** A committed call leaves every other object as it was read before. */
  lemma OthersReadAsBefore(l: Ledger, c: Call, id: string)
    requires Commits(l, c) && id != c.record.id
    ensures Get(Called(l, c).db, id) == Get(l.db, id)
  {
    CommittedRow(l, c);
    hide Commits, Called, ChangedRow, ParseKind, ParseName;
  }

  /** A committed insert reads back as what is left of the object, unless it was stored as deleted. */
  lemma InsertReadsBack(l: Ledger, o: Object, change: string)
    requires Commits(l, InsertCall(o, change))
    ensures o.metadata.Some?
    ensures Get(Called(l, InsertCall(o, change)).db, o.id) == if o.status == DELETED then None else Some(ReadBack(o))
  {
    var c := InsertCall(o, change);
    CommittedRow(l, c);
    assert o.id !in l.db.objects;
    NewRowReads(o);
    RowReadsBack(o, NewRow(o), Called(l, c).db);
    hide Get, ReadBack, Perform, Updated, ChangedRow, NewRow;
  }

  /**
   * A committed update is hidden exactly when it was stored as deleted. Otherwise it reads back as
   * what is left of it, with the schema version, device, creation and last use of the row before.
   */
  lemma UpdateReadsBack(l: Ledger, o: Object, summary: string)
    requires Commits(l, UpdateCall(o, summary))
    ensures o.metadata.Some? && o.id in l.db.objects
    ensures var got := Get(Called(l, UpdateCall(o, summary)).db, o.id);
      && (got.None? <==> o.status == DELETED)
      && (got.Some? ==> got.value == Updated(o, l.db.objects[o.id]))
  {
    var c := UpdateCall(o, summary);
    CommittedRow(l, c);
    assert o.id in l.db.objects;
    RowReadsBack(o, l.db.objects[o.id], Called(l, c).db);
    hide Get, ReadBack, Perform, Updated, ChangedRow, NewRow;
  }

  /** In no run is a kind ever read back. */
  lemma {:induction false} NoKindRead(workspaces: set<string>, devices: set<string>, calls: seq<Call>, id: string)
    ensures var objects := AfterCalls(workspaces, devices, calls).db.objects;
      id in objects ==> ParseKind(objects[id].kind) == 0
  {
    if calls != [] {
      var before, c := calls[..|calls| - 1], calls[|calls| - 1];
      var l := AfterCalls(workspaces, devices, before);
      NoKindRead(workspaces, devices, before, id);
      KindLost(c.record.kind);
      AllOrNothing(l.db, c);
      if Commits(l, c) {
        CommittedRow(l, c);
      }
      hide Perform, ParseKind, KindName, StoredName, Without, Agrees, WriteOf;
    }
  }

  /** The revision a committed call adds, in full. */
  lemma RevisionWritten(l: Ledger, c: Call)
    requires Commits(l, c)
    ensures var o, key := c.record, (c.record.id, c.record.revision);
      && o.revision <= I64_MAX && key !in l.db.revisions
      && Called(l, c).db.revisions == l.db.revisions[key := match c
           case InsertCall(_, change) =>
             Revision(o.payloadRef, o.payloadHash, o.payloadSize, change, None,
                      if o.createdAt > o.updatedAt then o.createdAt else o.updatedAt)
           case UpdateCall(_, summary) =>
             Revision(o.payloadRef, o.payloadHash, o.payloadSize, "updated", Some(summary), o.updatedAt)]
  {
    hide KindName, StoredName, Without, IsStored, RefFree;
  }

  /**
   * It reads back as given exactly when its kind is unspecified, its status, sensitivity and storage
   * state are specified and known, it is not deleted, and it has no tags, policy or attributes.
   */
  lemma InsertReadsBackExactly(l: Ledger, o: Object, change: string)
    requires Commits(l, InsertCall(o, change))
    ensures Get(Called(l, InsertCall(o, change)).db, o.id) == Some(o) <==>
      && o.metadata.Some? && o.kind == 0 && 1 <= o.status <= 4 && 1 <= o.storageState <= 4
      && var m := o.metadata.value;
      1 <= m.sensitivity <= 4 && m.tags == [] && m.policy.None? && m.attributes == map[]
  {
    InsertReadsBack(l, o, change);
    hide Get, Perform;
  }

  /** After an update the index shows the kind of the update, and the row the kind of the insert. */
  lemma IndexKindExactly(l: Ledger, o: Object, summary: string)
    requires IdsDistinct(l.db.search) && Commits(l, UpdateCall(o, summary))
    ensures var db := Called(l, UpdateCall(o, summary)).db;
      (forall x :: x in db.search && x.id == o.id ==> x.kind == db.objects[o.id].kind)
        <==> KindName(o.kind) == l.db.objects[o.id].kind
  {
    hide KindName, RowChecks, StoredName;
    WithoutExactly(l.db.search, o.id);
    var search := Called(l, UpdateCall(o, summary)).db.search;
    assert search[|search| - 1] == NewSearchRow(o) && NewSearchRow(o) in search;
  }

  /** A committed call is one more commit of the run. */
  lemma AfterOneMore(workspaces: set<string>, devices: set<string>, calls: seq<Call>, c: Call)
    ensures AfterCalls(workspaces, devices, calls + [c]) == Called(AfterCalls(workspaces, devices, calls), c)
  {
    hide Called;
    assert (calls + [c])[..|calls|] == calls;
  }

  /** Any valid object without workspace and device can be the first of a store. */
  lemma FirstInsert(o: Object)
    requires Complete(o) && o.revision <= I64_MAX && o.payloadSize <= I64_MAX
    requires o.metadata.value.workspace == "" && o.device == ""
    ensures Commits(AfterCalls({}, {}, []), InsertCall(o, "created"))
    ensures var l := AfterCalls({}, {}, [InsertCall(o, "created")]);
      o.id in l.db.objects && l.db.objects == map[o.id := NewRow(o)] && Consistent(l)
  {
    AlwaysConsistent({}, {}, []);
    AlwaysConsistent({}, {}, [InsertCall(o, "created")]);
    InsertCommitsExactly(AfterCalls({}, {}, []), o, "created");
    AfterOneMore({}, {}, [], InsertCall(o, "created"));
    assert [] + [InsertCall(o, "created")] == [InsertCall(o, "created")];
    hide Consistent, ValidObject, Complete, Without, KindName, StoredName;
  }

  lemma ConsistentIndex(l: Ledger)
    requires Consistent(l)
    ensures IdsDistinct(l.db.search)
  {
  }

  /** An update of that object by one of another kind commits, and leaves index and row apart. */
  lemma UpdateSplitsKinds(o: Object, o': Object)
    requires Complete(o) && o.revision < I64_MAX && o.payloadSize <= I64_MAX
    requires o.metadata.value.workspace == "" && o.device == ""
    requires Complete(o') && o' == o.(kind := o'.kind, revision := o.revision + 1)
    requires KindName(o.kind) != KindName(o'.kind)
    ensures var before := AfterCalls({}, {}, [InsertCall(o, "created")]);
      var db := AfterCalls({}, {}, [InsertCall(o, "created"), UpdateCall(o', "")]).db;
      && Commits(before, UpdateCall(o', "")) && o.id in db.objects
      && exists x :: x in db.search && x.id == o.id && x.kind != db.objects[o.id].kind
  {
    hide Consistent, AfterCalls, Without, KindName, StoredName, RowChecks, Blank;
    FirstInsert(o);
    var insert, update := InsertCall(o, "created"), UpdateCall(o', "");
    var before := AfterCalls({}, {}, [insert]);
    assert before.db.objects[o.id].kind == KindName(o.kind);
    UpdateCommitsExactly(before, o', "");
    AfterOneMore({}, {}, [insert], update);
    assert [insert] + [update] == [insert, update];
    assert IdsDistinct(before.db.search) by { ConsistentIndex(before); }
    IndexKindExactly(before, o', "");
  }

  const NOTE :=
    Object("o", 1, 1, Some(Metadata("t", "", [], 2, None, "", map[])), 2, "r", "h", 0, "", 1, 2, "", 0, 0, 0)

  /** An object inserted as a note and updated as a server: both commit, and the index disagrees with the row. */
  lemma IndexKindDiffers()
    ensures var insert, update := InsertCall(NOTE, "created"), UpdateCall(NOTE.(kind := 2, revision := 2), "");
      var before, db := AfterCalls({}, {}, [insert]), AfterCalls({}, {}, [insert, update]).db;
      && Commits(AfterCalls({}, {}, []), insert) && Commits(before, update) && NOTE.id in db.objects
      && exists x :: x in db.search && x.id == NOTE.id && x.kind != db.objects[NOTE.id].kind
  {
    hide AfterCalls, Commits, KindName, Complete, NewRow, Consistent;
    NotesValid();
    FirstInsert(NOTE);
    UpdateSplitsKinds(NOTE, NOTE.(kind := 2, revision := 2));
  }

  lemma NotesValid()
    ensures Complete(NOTE) && Complete(NOTE.(kind := 2, revision := 2)) && KindName(1) != KindName(2)
  {
    assert "o"[0] == 'o' && "r"[0] == 'r' && "h"[0] == 'h' && "t"[0] == 't';
    assert |KindName(1)| != |KindName(2)|;
  }
}
