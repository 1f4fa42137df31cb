/** Group snapshots and prior epochs in SQLite, with retention of the latest epochs. */
module EpochStore {
  import opened Bytes
  import opened Wrappers

  /** SQLite integers are signed; a larger `u64` is refused when the parameter is bound. */
  const I64_MAX: nat := 0x7FFF_FFFF_FFFF_FFFF

  datatype EpochRecord = EpochRecord(id: u64, data: bytes)

  type GroupId = bytes
  type Rows = map<nat, bytes>

  /** Table `mls_group`, and table `epoch` with its rows sorted by group. */
  datatype Tables = Tables(snapshots: map<GroupId, bytes>, epochs: map<GroupId, Rows>)

  function RowsOf(t: Tables, g: GroupId): Rows {
    if g in t.epochs then t.epochs[g] else map[]
  }

  // ------------------------------------------------------------------
  // One transaction
  // ------------------------------------------------------------------

  /** The inserts, until one breaks the primary key or cannot be bound. */
  function InsertRows(rows: Rows, records: seq<EpochRecord>): Option<Rows>
    decreases |records|
  {
    if records == [] then Some(rows)
    else if records[0].id > I64_MAX || records[0].id in rows then None
    else InsertRows(rows[records[0].id := records[0].data], records[1..])
  }

  /** The updates; those of missing rows change nothing. */
  function UpdateRows(rows: Rows, records: seq<EpochRecord>): Option<Rows>
    decreases |records|
  {
    if records == [] then Some(rows)
    else if records[0].id > I64_MAX then None
    else UpdateRows(UpdateRow(rows, records[0]), records[1..])
  }

  function UpdateRow(rows: Rows, r: EpochRecord): Rows {
    if r.id in rows then rows[r.id := r.data] else rows
  }

  /** The rows with ids above a bound. */
  function Above(rows: Rows, bound: int): Rows {
    map id | id in rows && id > bound :: rows[id]
  }

  /** The deletion after the last insert: everything at or below `last - retention`. */
  function Prune(rows: Rows, inserts: seq<EpochRecord>, retention: u64): Rows {
    if inserts == [] then rows
    else
      var last := inserts[|inserts| - 1].id;
      if last >= retention then Above(rows, last - retention) else rows
  }

  function WriteRows(rows: Rows, inserts: seq<EpochRecord>, updates: seq<EpochRecord>, retention: u64): Option<Rows> {
    var inserted := InsertRows(rows, inserts);
    if inserted.None? then None else
    var updated := UpdateRows(inserted.value, updates);
    if updated.None? then None else Some(Prune(updated.value, inserts, retention))
  }

  datatype Write = Write(group: GroupId, snapshot: bytes, inserts: seq<EpochRecord>, updates: seq<EpochRecord>,
                         commits: bool)

  /** The tables after a write: all of it, or nothing. `commits` is false when the engine fails
      at any statement or at the commit. */
  function Apply(t: Tables, w: Write, retention: u64): Tables {
    var rows := WriteRows(RowsOf(t, w.group), w.inserts, w.updates, retention);
    if !w.commits || rows.None? then t
    else Tables(t.snapshots[w.group := w.snapshot], t.epochs[w.group := rows.value])
  }

  predicate Succeeds(t: Tables, w: Write, retention: u64) {
    w.commits && WriteRows(RowsOf(t, w.group), w.inserts, w.updates, retention).Some?
  }

  datatype StoreError = SqlEngineError

  /** `get_epoch_data`. */
  function Lookup(t: Tables, g: GroupId, id: u64): Result<Option<bytes>, StoreError> {
    if id > I64_MAX then Err(SqlEngineError)
    else Ok(if id in RowsOf(t, g) then Some(RowsOf(t, g)[id]) else None)
  }

  /** `get_snapshot_data`. */
  function SnapshotOf(t: Tables, g: GroupId): Option<bytes> {
    if g in t.snapshots then Some(t.snapshots[g]) else None
  }

  class GroupStateStorage {
    var tables: Tables
    const retention: u64

    constructor (retention: u64)
      ensures tables == Tables(map[], map[]) && this.retention == retention
    {
      tables := Tables(map[], map[]);
      this.retention := retention;
    }

    /** `update_group_state`: the statements run on the transaction's view, which replaces the
        tables at the commit. */
    method UpdateGroupState(w: Write) returns (ok: bool)
      modifies this
      ensures tables == Apply(old(tables), w, retention)
      ensures ok <==> Succeeds(old(tables), w, retention)
    {
      var snapshots := tables.snapshots[w.group := w.snapshot];
      var rows: Rows := RowsOf(tables, w.group);
      var maxEpochId: Option<u64> := None;
      ghost var start := rows;

      assert w.inserts[0..] == w.inserts;
      for i := 0 to |w.inserts|
        invariant InsertRows(rows, w.inserts[i..]) == InsertRows(start, w.inserts)
        invariant maxEpochId == if i == 0 then None else Some(w.inserts[i - 1].id)
      {
        var e := w.inserts[i];
        assert w.inserts[i..][0] == e && w.inserts[i..][1..] == w.inserts[i + 1..];
        maxEpochId := Some(e.id);
        if e.id > I64_MAX || e.id in rows { return false; }
        rows := rows[e.id := e.data];
      }

      ghost var inserted := rows;
      assert w.updates[0..] == w.updates;
      for i := 0 to |w.updates|
        invariant UpdateRows(rows, w.updates[i..]) == UpdateRows(inserted, w.updates)
      {
        var e := w.updates[i];
        assert w.updates[i..][0] == e && w.updates[i..][1..] == w.updates[i + 1..];
        if e.id > I64_MAX { return false; }
        if e.id in rows { rows := rows[e.id := e.data]; }
      }

      if maxEpochId.Some? && maxEpochId.value >= retention {
        var deleteUnder := maxEpochId.value - retention;
        rows := map id | id in rows && id > deleteUnder :: rows[id];
      }
      if !w.commits { return false; }
      tables := Tables(snapshots, tables.epochs[w.group := rows]);
      ok := true;
    }

    method SnapshotData(g: GroupId) returns (snapshot: Option<bytes>)
      ensures snapshot == SnapshotOf(tables, g)
    {
      snapshot := if g in tables.snapshots then Some(tables.snapshots[g]) else None;
    }

    method EpochData(g: GroupId, id: u64) returns (data: Result<Option<bytes>, StoreError>)
      ensures data == Lookup(tables, g, id)
    {
      if id > I64_MAX { return Err(SqlEngineError); }
      var rows := RowsOf(tables, g);
      data := if id in rows then Ok(Some(rows[id])) else Ok(None);
    }
  }

  // ------------------------------------------------------------------
  // The unbounded history
  // ------------------------------------------------------------------

  /** Everything ever inserted for a group, with its latest data, and the greatest id. */
  datatype History = History(epochs: Rows, top: Option<nat>)

  const NO_HISTORY := History(map[], None)

  function AddAll(rows: Rows, records: seq<EpochRecord>): Rows
    decreases |records|
  {
    if records == [] then rows else AddAll(rows[records[0].id := records[0].data], records[1..])
  }

  function SetExisting(rows: Rows, records: seq<EpochRecord>): Rows
    decreases |records|
  {
    if records == [] then rows else SetExisting(UpdateRow(rows, records[0]), records[1..])
  }

  function Raise(top: Option<nat>, id: nat): nat {
    if top.Some? && top.value > id then top.value else id
  }

  function RaiseAll(top: Option<nat>, records: seq<EpochRecord>): Option<nat>
    decreases |records|
  {
    if records == [] then top else RaiseAll(Some(Raise(top, records[0].id)), records[1..])
  }

  function Record(h: History, w: Write): History {
    History(SetExisting(AddAll(h.epochs, w.inserts), w.updates), RaiseAll(h.top, w.inserts))
  }

  function HistoryOf(hs: map<GroupId, History>, g: GroupId): History {
    if g in hs then hs[g] else NO_HISTORY
  }

  /** Tables and histories after one write. */
  function Step(t: Tables, hs: map<GroupId, History>, w: Write, retention: u64): (Tables, map<GroupId, History>) {
    (Apply(t, w, retention),
     if Succeeds(t, w, retention) then hs[w.group := Record(HistoryOf(hs, w.group), w)] else hs)
  }

  function Run(t: Tables, hs: map<GroupId, History>, ws: seq<Write>, retention: u64)
    : (Tables, map<GroupId, History>)
    decreases |ws|
  {
    if ws == [] then (t, hs)
    else
      var (t', hs') := Step(t, hs, ws[0], retention);
      Run(t', hs', ws[1..], retention)
  }

  // ------------------------------------------------------------------
  // Rows and ids
  // ------------------------------------------------------------------

  lemma {:induction false} InsertIsAdd(rows: Rows, records: seq<EpochRecord>)
    requires InsertRows(rows, records).Some?
    ensures InsertRows(rows, records).value == AddAll(rows, records)
    decreases |records|
  {
    if records != [] { InsertIsAdd(rows[records[0].id := records[0].data], records[1..]); }
  }

  lemma {:induction false} UpdateIsSet(rows: Rows, records: seq<EpochRecord>)
    requires UpdateRows(rows, records).Some?
    ensures UpdateRows(rows, records).value == SetExisting(rows, records)
    decreases |records|
  {
    if records != [] { UpdateIsSet(UpdateRow(rows, records[0]), records[1..]); }
  }

  /** What rows hold above a bound decides what they hold there after additions. */
  lemma {:induction false} AddAbove(a: Rows, b: Rows, records: seq<EpochRecord>, bound: int)
    requires Above(a, bound) == Above(b, bound)
    ensures Above(AddAll(a, records), bound) == Above(AddAll(b, records), bound)
    decreases |records|
  {
    if records != [] {
      var r := records[0];
      AboveIff(a, b, bound);
      AboveIff(a[r.id := r.data], b[r.id := r.data], bound);
      AddAbove(a[r.id := r.data], b[r.id := r.data], records[1..], bound);
    }
  }

  /** So it does after updates. */
  lemma {:induction false} SetAbove(a: Rows, b: Rows, records: seq<EpochRecord>, bound: int)
    requires Above(a, bound) == Above(b, bound)
    ensures Above(SetExisting(a, records), bound) == Above(SetExisting(b, records), bound)
    decreases |records|
  {
    if records != [] {
      AboveIff(a, b, bound);
      AboveIff(UpdateRow(a, records[0]), UpdateRow(b, records[0]), bound);
      SetAbove(UpdateRow(a, records[0]), UpdateRow(b, records[0]), records[1..], bound);
    }
  }

  /** Agreement above a bound, id by id. */
  lemma AboveIff(a: Rows, b: Rows, bound: int)
    ensures Above(a, bound) == Above(b, bound)
            <==> forall id: nat :: id > bound ==> (id in a <==> id in b) && (id in a ==> a[id] == b[id])
  {
    if Above(a, bound) == Above(b, bound) {
      forall id: nat | id > bound ensures (id in a <==> id in b) && (id in a ==> a[id] == b[id]) {
        assert id in Above(a, bound) <==> id in Above(b, bound);
        if id in a { assert Above(a, bound)[id] == Above(b, bound)[id]; }
      }
    }
  }

  lemma {:induction false} SetKeepsKeys(rows: Rows, records: seq<EpochRecord>)
    ensures SetExisting(rows, records).Keys == rows.Keys
    decreases |records|
  {
    if records != [] {
      assert UpdateRow(rows, records[0]).Keys == rows.Keys;
      SetKeepsKeys(UpdateRow(rows, records[0]), records[1..]);
    }
  }

  ghost function Ids(records: seq<EpochRecord>): set<nat> {
    set i | 0 <= i < |records| :: records[i].id
  }

  lemma {:induction false} AddKeys(rows: Rows, records: seq<EpochRecord>)
    ensures AddAll(rows, records).Keys == rows.Keys + Ids(records)
    decreases |records|
  {
    if records != [] {
      AddKeys(rows[records[0].id := records[0].data], records[1..]);
      assert Ids(records) == {records[0].id as nat} + Ids(records[1..]) by {
        assert forall i :: 0 < i < |records| ==> records[i] == records[1..][i - 1];
        assert forall i :: 0 <= i < |records| - 1 ==> records[1..][i] == records[i + 1];
      }
    }
  }

  /** The rows of a write before its deletion. */
  function Unpruned(rows: Rows, inserts: seq<EpochRecord>, updates: seq<EpochRecord>): Rows {
    SetExisting(AddAll(rows, inserts), updates)
  }

  lemma WriteIsPrune(rows: Rows, inserts: seq<EpochRecord>, updates: seq<EpochRecord>, retention: u64)
    requires WriteRows(rows, inserts, updates, retention).Some?
    ensures WriteRows(rows, inserts, updates, retention).value
            == Prune(Unpruned(rows, inserts, updates), inserts, retention)
    ensures Unpruned(rows, inserts, updates).Keys == rows.Keys + Ids(inserts)
  {
    InsertIsAdd(rows, inserts);
    UpdateIsSet(AddAll(rows, inserts), updates);
    SetKeepsKeys(AddAll(rows, inserts), updates);
    AddKeys(rows, inserts);
  }

  // ------------------------------------------------------------------
  // One write and the window
  // ------------------------------------------------------------------

  /** Of the ids that are stored or inserted, none lies in the window of the last inserted id and
      below the window of another: `retention` bounds how far ids may fall back. */
  ghost predicate InWindow(rows: Rows, inserts: seq<EpochRecord>, retention: u64) {
    inserts == [] ||
    var last := inserts[|inserts| - 1].id;
    forall id, other :: id in rows.Keys + Ids(inserts) && other in rows.Keys + Ids(inserts) ==>
      !(last - retention < id <= other - retention)
  }

  /** Cutting under the last id is cutting under the greatest one exactly when nothing lies
      between the two cuts. */
  lemma CutIff(full: Rows, last: nat, top: nat, retention: u64)
    requires last in full && top in full && forall id :: id in full ==> id <= top
    ensures Above(full, last - retention) == Above(full, top - retention)
            <==> forall id, other :: id in full && other in full ==> !(last - retention < id <= other - retention)
  {
    var low, high := Above(full, last - retention), Above(full, top - retention);
    if low == high {
      forall id, other | id in full && other in full ensures !(last - retention < id <= other - retention) {
        assert id in low <==> id in high;
      }
    } else {
      assert low.Keys != high.Keys;
      var id :| id in low.Keys && id !in high.Keys;
      assert last - retention < id <= top - retention;
    }
  }

  /** The deletion follows the last inserted id, not the greatest. A successful write with inserts
      keeps exactly the ids above `top - retention`, `top` being the greatest id stored or
      inserted, if and only if its ids are in the window. */
  lemma WriteKeepsWindowIff(rows: Rows, inserts: seq<EpochRecord>, updates: seq<EpochRecord>, retention: u64, top: nat)
    requires inserts != [] && WriteRows(rows, inserts, updates, retention).Some?
    requires top in rows.Keys + Ids(inserts) && forall id :: id in rows.Keys + Ids(inserts) ==> id <= top
    ensures WriteRows(rows, inserts, updates, retention).value
            == Above(Unpruned(rows, inserts, updates), top - retention)
            <==> InWindow(rows, inserts, retention)
  {
    WriteIsPrune(rows, inserts, updates, retention);
    var full, last := Unpruned(rows, inserts, updates), inserts[|inserts| - 1].id;
    assert last in Ids(inserts);
    assert last < retention ==> Above(full, last - retention) == full;
    CutIff(full, last, top, retention);
    assert forall id :: id in full <==> id in rows.Keys + Ids(inserts);
  }

  /** With retention zero a write leaves nothing if and only if no id exceeds its last one; that is
      what the window then asks. */
  lemma ZeroRetentionEmptiesIff(rows: Rows, inserts: seq<EpochRecord>, updates: seq<EpochRecord>)
    requires inserts != [] && WriteRows(rows, inserts, updates, 0).Some?
    ensures WriteRows(rows, inserts, updates, 0).value == map[]
            <==> forall id :: id in rows.Keys + Ids(inserts) ==> id <= inserts[|inserts| - 1].id
    ensures WriteRows(rows, inserts, updates, 0).value == map[] <==> InWindow(rows, inserts, 0)
  {
    WriteIsPrune(rows, inserts, updates, 0);
    var full: Rows, last: nat := Unpruned(rows, inserts, updates), inserts[|inserts| - 1].id;
    var kept: Rows := Above(full, last);
    forall id | id in full && id > last ensures kept != map[] { assert id in kept; }
    forall id | id in kept ensures id in full && id > last { }
    assert forall id :: id in full <==> id in rows.Keys + Ids(inserts);
    if kept != map[] {
      var id :| id in kept;
      assert id in rows.Keys + Ids(inserts) && last - 0 < id <= id - 0;
    }
  }

  // ------------------------------------------------------------------
  // Runs and the history
  // ------------------------------------------------------------------

  /** Where the retained window begins. */
  function Floor(top: Option<nat>, retention: u64): int {
    if top.None? then -1 else top.value - retention
  }

  ghost predicate Topped(h: History) {
    && (h.top.None? ==> h.epochs == map[])
    && (h.top.Some? ==> h.top.value in h.epochs)
    && (forall id :: id in h.epochs ==> id <= h.top.value)
  }

  /** The stored rows are the history above the window's floor. */
  ghost predicate Retained(rows: Rows, h: History, retention: u64) {
    Topped(h) && rows == Above(h.epochs, Floor(h.top, retention))
  }

  lemma {:induction false} AddTopped(h: History, records: seq<EpochRecord>)
    requires Topped(h)
    ensures Topped(History(AddAll(h.epochs, records), RaiseAll(h.top, records)))
    ensures records != [] || h.top.Some? ==> RaiseAll(h.top, records).Some?
    ensures h.top.Some? ==> h.top.value <= RaiseAll(h.top, records).value
    decreases |records|
  {
    if records != [] {
      var r := records[0];
      AddTopped(History(h.epochs[r.id := r.data], Some(Raise(h.top, r.id))), records[1..]);
    }
  }

  lemma RecordTopped(h: History, w: Write)
    requires Topped(h)
    ensures Topped(Record(h, w))
    ensures w.inserts != [] || h.top.Some? ==> Record(h, w).top.Some?
    ensures h.top.Some? ==> h.top.value <= Record(h, w).top.value
  {
    AddTopped(h, w.inserts);
    SetKeepsKeys(AddAll(h.epochs, w.inserts), w.updates);
    assert Record(h, w).epochs.Keys == AddAll(h.epochs, w.inserts).Keys;
  }

  /** Above the new floor, the rows of a write before its deletion are the new history. */
  lemma UnprunedIsHistory(rows: Rows, h: History, w: Write, retention: u64, floor: int)
    requires Retained(rows, h, retention) && (h.top.Some? ==> floor >= Floor(h.top, retention))
    ensures Above(Unpruned(rows, w.inserts, w.updates), floor) == Above(Record(h, w).epochs, floor)
  {
    assert Above(rows, floor) == Above(h.epochs, floor);
    AddAbove(rows, h.epochs, w.inserts, floor);
    SetAbove(AddAll(rows, w.inserts), AddAll(h.epochs, w.inserts), w.updates, floor);
  }

  /** The greatest id of the history is the greatest of those stored or inserted. */
  lemma TopIsHeld(rows: Rows, h: History, w: Write, retention: u64)
    requires retention >= 1 && Retained(rows, h, retention) && w.inserts != []
    ensures var top := Record(h, w).top;
            && top.Some? && top.value in rows.Keys + Ids(w.inserts)
            && (forall id :: id in rows.Keys + Ids(w.inserts) ==> id <= top.value)
  {
    RecordTopped(h, w);
    SetKeepsKeys(AddAll(h.epochs, w.inserts), w.updates);
    AddKeys(h.epochs, w.inserts);
    var h' := Record(h, w);
    assert h'.epochs.Keys == h.epochs.Keys + Ids(w.inserts);
    assert h.top.None? ==> h.epochs == map[];
    forall id | id in rows.Keys + Ids(w.inserts) ensures id <= h'.top.value { assert id in h'.epochs.Keys; }
    if h'.top.value !in Ids(w.inserts) {
      assert h'.top.value in h.epochs.Keys && h'.top.value == h.top.value;
    }
  }

  /** A write without inserts keeps the window. */
  lemma UpdatesKeepWindow(rows: Rows, h: History, w: Write, retention: u64)
    requires Retained(rows, h, retention) && w.inserts == []
    requires WriteRows(rows, w.inserts, w.updates, retention).Some?
    ensures Retained(WriteRows(rows, w.inserts, w.updates, retention).value, Record(h, w), retention)
  {
    var floor := Floor(h.top, retention);
    RecordTopped(h, w);
    WriteIsPrune(rows, w.inserts, w.updates, retention);
    UnprunedIsHistory(rows, h, w, retention, floor);
    var full := Unpruned(rows, w.inserts, w.updates);
    assert full.Keys == rows.Keys;
    assert Above(full, floor) == full;
  }

  /** A successful write keeps the stored rows the history's window if and only if its ids are in
      the window. */
  lemma RetainedIff(rows: Rows, h: History, w: Write, retention: u64)
    requires Retained(rows, h, retention)
    requires WriteRows(rows, w.inserts, w.updates, retention).Some?
    ensures Retained(WriteRows(rows, w.inserts, w.updates, retention).value, Record(h, w), retention)
            <==> InWindow(rows, w.inserts, retention)
  {
    var h' := Record(h, w);
    RecordTopped(h, w);
    if w.inserts == [] {
      UpdatesKeepWindow(rows, h, w, retention);
    } else if retention == 0 {
      ZeroRetentionEmptiesIff(rows, w.inserts, w.updates);
      assert Above(h'.epochs, h'.top.value) == map[];
    } else {
      TopIsHeld(rows, h, w, retention);
      WriteKeepsWindowIff(rows, w.inserts, w.updates, retention, h'.top.value);
      UnprunedIsHistory(rows, h, w, retention, Floor(h'.top, retention));
    }
  }

  ghost predicate AllRetained(t: Tables, hs: map<GroupId, History>, retention: u64) {
    forall g: GroupId :: Retained(RowsOf(t, g), HistoryOf(hs, g), retention)
  }

  /** The window holds in every state of the run. */
  ghost predicate RunRetained(t: Tables, hs: map<GroupId, History>, ws: seq<Write>, retention: u64)
    decreases |ws|
  {
    && AllRetained(t, hs, retention)
    && (ws != [] ==>
          var (t', hs') := Step(t, hs, ws[0], retention);
          RunRetained(t', hs', ws[1..], retention))
  }

  /** Every successful write of the run is in the window of what its group has stored. */
  ghost predicate RunInWindow(t: Tables, ws: seq<Write>, retention: u64)
    decreases |ws|
  {
    ws == [] ||
    ((Succeeds(t, ws[0], retention) ==> InWindow(RowsOf(t, ws[0].group), ws[0].inserts, retention))
     && RunInWindow(Apply(t, ws[0], retention), ws[1..], retention))
  }

  lemma StepRetainedIff(t: Tables, hs: map<GroupId, History>, w: Write, retention: u64)
    requires AllRetained(t, hs, retention)
    ensures AllRetained(Step(t, hs, w, retention).0, Step(t, hs, w, retention).1, retention)
            <==> (Succeeds(t, w, retention) ==> InWindow(RowsOf(t, w.group), w.inserts, retention))
  {
    var (t', hs') := Step(t, hs, w, retention);
    var g := w.group;
    assert Retained(RowsOf(t, g), HistoryOf(hs, g), retention);
    if Succeeds(t, w, retention) {
      RetainedIff(RowsOf(t, g), HistoryOf(hs, g), w, retention);
      assert RowsOf(t', g) == WriteRows(RowsOf(t, g), w.inserts, w.updates, retention).value;
      assert HistoryOf(hs', g) == Record(HistoryOf(hs, g), w);
    }
    forall f: GroupId | f != g ensures Retained(RowsOf(t', f), HistoryOf(hs', f), retention) {
      assert Retained(RowsOf(t, f), HistoryOf(hs, f), retention);
    }
  }

  /** In every run, failed writes included, the stored epochs of every group are its whole history
      cut at `top - retention`, with latest data, all the time, if and only if every successful
      write is in the window. */
  lemma {:induction false} RunRefinesHistoryIff(t: Tables, hs: map<GroupId, History>, ws: seq<Write>, retention: u64)
    requires AllRetained(t, hs, retention)
    ensures RunRetained(t, hs, ws, retention) <==> RunInWindow(t, ws, retention)
    decreases |ws|
  {
    if ws != [] {
      StepRetainedIff(t, hs, ws[0], retention);
      var (t', hs') := Step(t, hs, ws[0], retention);
      if AllRetained(t', hs', retention) {
        RunRefinesHistoryIff(t', hs', ws[1..], retention);
      }
    }
  }

  lemma {:induction false} RetainedAtEnd(t: Tables, hs: map<GroupId, History>, ws: seq<Write>, retention: u64)
    requires RunRetained(t, hs, ws, retention)
    ensures AllRetained(Run(t, hs, ws, retention).0, Run(t, hs, ws, retention).1, retention)
    decreases |ws|
  {
    if ws != [] {
      var (t', hs') := Step(t, hs, ws[0], retention);
      RetainedAtEnd(t', hs', ws[1..], retention);
    }
  }

  /** From empty tables, with every write in the window: the window, and never more than
      `retention` epochs per group. */
  lemma RunFromEmpty(ws: seq<Write>, retention: u64, g: GroupId)
    requires RunInWindow(Tables(map[], map[]), ws, retention)
    ensures var (t, hs) := Run(Tables(map[], map[]), map[], ws, retention);
            Retained(RowsOf(t, g), HistoryOf(hs, g), retention) && |RowsOf(t, g)| <= retention
  {
    EmptyRetained(retention);
    RunRefinesHistoryIff(Tables(map[], map[]), map[], ws, retention);
    RetainedAtEnd(Tables(map[], map[]), map[], ws, retention);
    var (t, hs) := Run(Tables(map[], map[]), map[], ws, retention);
    var rows, h := RowsOf(t, g), HistoryOf(hs, g);
    assert Retained(rows, h, retention);
    if h.top.None? {
      assert rows == map[];
    } else {
      IntervalSize(rows.Keys, h.top.value, retention);
      assert |rows| == |rows.Keys|;
    }
  }

  lemma EmptyRetained(retention: u64)
    ensures AllRetained(Tables(map[], map[]), map[], retention)
  {
    assert Above(map[], -1) == map[];
  }

  /** Where anything was inserted, the greatest epoch is stored: what `SELECT MAX(epoch_id)`
      returns. */
  lemma TopIsGreatest(rows: Rows, h: History, retention: u64)
    requires retention >= 1 && Retained(rows, h, retention)
    ensures rows == map[] <==> h.top.None?
    ensures h.top.Some? ==>
              h.top.value in rows && rows[h.top.value] == h.epochs[h.top.value]
              && forall id :: id in rows ==> id <= h.top.value
  {
  }

  // ------------------------------------------------------------------
  // Ascending ids
  // ------------------------------------------------------------------

  /** Inserted ids ascend, above every id that the group has had. */
  predicate Ascending(top: Option<nat>, inserts: seq<EpochRecord>)
    decreases |inserts|
  {
    inserts == [] ||
    ((top.Some? ==> top.value < inserts[0].id) && Ascending(Some(inserts[0].id), inserts[1..]))
  }

  ghost predicate RunAscending(t: Tables, hs: map<GroupId, History>, ws: seq<Write>, retention: u64)
    decreases |ws|
  {
    ws == [] ||
    ((Succeeds(t, ws[0], retention) ==> Ascending(HistoryOf(hs, ws[0].group).top, ws[0].inserts)) &&
     var (t', hs') := Step(t, hs, ws[0], retention);
     RunAscending(t', hs', ws[1..], retention))
  }

  lemma {:induction false} AscendingBounds(top: Option<nat>, inserts: seq<EpochRecord>)
    requires Ascending(top, inserts) && inserts != []
    ensures forall id :: id in Ids(inserts) ==> id <= inserts[|inserts| - 1].id
    ensures top.Some? ==> top.value < inserts[|inserts| - 1].id
    decreases |inserts|
  {
    if |inserts| > 1 {
      AscendingBounds(Some(inserts[0].id), inserts[1..]);
      forall i | 0 < i < |inserts| ensures inserts[i].id in Ids(inserts[1..]) {
        assert inserts[i] == inserts[1..][i - 1];
      }
    }
  }

  /** Runs whose inserted ids ascend are in the window, whatever the retention. */
  lemma {:induction false} AscendingInWindow(t: Tables, hs: map<GroupId, History>, ws: seq<Write>, retention: u64)
    requires AllRetained(t, hs, retention) && RunAscending(t, hs, ws, retention)
    ensures RunInWindow(t, ws, retention)
    decreases |ws|
  {
    if ws != [] {
      var w := ws[0];
      var rows, h := RowsOf(t, w.group), HistoryOf(hs, w.group);
      assert Retained(rows, h, retention);
      if Succeeds(t, w, retention) && w.inserts != [] {
        AscendingBounds(h.top, w.inserts);
        assert forall id :: id in rows.Keys ==> id <= h.top.value;
      }
      StepRetainedIff(t, hs, w, retention);
      var (t', hs') := Step(t, hs, w, retention);
      AscendingInWindow(t', hs', ws[1..], retention);
    }
  }

  lemma {:induction false} IntervalSize(ids: set<nat>, last: nat, size: nat)
    requires forall id :: id in ids ==> last - size < id <= last
    ensures |ids| <= size
    decreases size
  {
    if size == 0 {
      assert ids == {};
    } else {
      var lowest := last - size + 1;
      if lowest >= 0 && lowest in ids {
        IntervalSize(ids - {lowest}, last, size - 1);
      } else {
        IntervalSize(ids, last, size - 1);
      }
    }
  }

  /** A write leaves every other group's rows and snapshot as they were, and a failed write
      leaves everything. */
  lemma WriteFrame(t: Tables, w: Write, retention: u64, g: GroupId)
    requires g != w.group || !Succeeds(t, w, retention)
    ensures RowsOf(Apply(t, w, retention), g) == RowsOf(t, g)
    ensures g in Apply(t, w, retention).snapshots <==> g in t.snapshots
    ensures g in t.snapshots ==> Apply(t, w, retention).snapshots[g] == t.snapshots[g]
  {
  }

  // ------------------------------------------------------------------
  // Outside the conditions
  // ------------------------------------------------------------------

  /** Two ids that do not ascend: with retention one both are kept, and the lower one is out of
      the window. */
  lemma DescendingInsertsKeepMore(high: u64, low: u64, x: bytes, y: bytes)
    requires 1 <= low < high <= I64_MAX
    ensures var inserts := [EpochRecord(high, x), EpochRecord(low, y)];
            && WriteRows(map[], inserts, [], 1) == Some(map[high := x, low := y])
            && !InWindow(map[], inserts, 1)
  {
    var a, b := EpochRecord(high, x), EpochRecord(low, y);
    var rows: Rows := map[high := x];
    assert [a, b][1..] == [b] && [b][1..] == [];
    assert InsertRows(map[high := x, low := y], []) == Some(map[high := x, low := y]);
    assert rows[low := y] == map[high := x, low := y];
    assert InsertRows(rows, [b]) == Some(map[high := x, low := y]);
    assert map[][high := x] == rows;
    assert InsertRows(map[], [a, b]) == Some(map[high := x, low := y]);
    assert Above(map[high := x, low := y], low - 1) == map[high := x, low := y];
    var none: Rows := map[];
    assert [a, b][0].id in none.Keys + Ids([a, b]) && [a, b][1].id in none.Keys + Ids([a, b]);
    assert low - 1 < low <= high - 1;
  }

  // ------------------------------------------------------------------
  // Reads, from the writes alone
  // ------------------------------------------------------------------

  /** A write succeeds exactly when the engine commits it, all ids fit a signed 64-bit integer, and the
      inserted ids are different from each other and from the stored ones. */
  lemma WriteSucceedsIff(t: Tables, w: Write, retention: u64)
    ensures Succeeds(t, w, retention) <==>
            && w.commits
            && (forall i :: 0 <= i < |w.inserts| ==>
                  w.inserts[i].id <= 0x7FFF_FFFF_FFFF_FFFF && w.inserts[i].id !in RowsOf(t, w.group))
            && (forall i, j :: 0 <= i < j < |w.inserts| ==> w.inserts[i].id != w.inserts[j].id)
            && (forall i :: 0 <= i < |w.updates| ==> w.updates[i].id <= 0x7FFF_FFFF_FFFF_FFFF)
  {
    InsertOkIff(RowsOf(t, w.group), w.inserts);
    var inserted := InsertRows(RowsOf(t, w.group), w.inserts);
    if inserted.Some? { UpdateOkIff(inserted.value, w.updates); }
  }

  lemma {:induction false} InsertOkIff(rows: Rows, records: seq<EpochRecord>)
    ensures InsertRows(rows, records).Some? <==>
            && (forall i :: 0 <= i < |records| ==> records[i].id <= 0x7FFF_FFFF_FFFF_FFFF && records[i].id !in rows)
            && (forall i, j :: 0 <= i < j < |records| ==> records[i].id != records[j].id)
    decreases |records|
  {
    if records != [] {
      var r, tail := records[0], records[1..];
      InsertOkIff(rows[r.id := r.data], tail);
      assert forall i :: 0 < i < |records| ==> records[i] == tail[i - 1];
      assert forall i :: 0 <= i < |tail| ==> tail[i] == records[i + 1];
    }
  }

  lemma {:induction false} UpdateOkIff(rows: Rows, records: seq<EpochRecord>)
    ensures UpdateRows(rows, records).Some? <==>
            forall i :: 0 <= i < |records| ==> records[i].id <= 0x7FFF_FFFF_FFFF_FFFF
    decreases |records|
  {
    if records != [] {
      UpdateOkIff(UpdateRow(rows, records[0]), records[1..]);
      assert forall i :: 0 < i < |records| ==> records[i] == records[1..][i - 1];
      assert forall i :: 0 <= i < |records| - 1 ==> records[1..][i] == records[i + 1];
    }
  }

  /** The writes of a run that succeeded, in order. */
  function Done(t: Tables, ws: seq<Write>, retention: u64): seq<Write>
    decreases |ws|
  {
    if ws == [] then []
    else (if Succeeds(t, ws[0], retention) then [ws[0]] else []) + Done(Apply(t, ws[0], retention), ws[1..], retention)
  }

  /** The snapshot of the last write for a group. */
  function LastSnapshot(start: Option<bytes>, done: seq<Write>, g: GroupId): Option<bytes>
    decreases |done|
  {
    if done == [] then start
    else LastSnapshot(if done[0].group == g then Some(done[0].snapshot) else start, done[1..], g)
  }

  /** The data of the last record with an id. */
  function LastRecord(start: Option<bytes>, records: seq<EpochRecord>, id: nat): Option<bytes>
    decreases |records|
  {
    if records == [] then start
    else LastRecord(if records[0].id == id then Some(records[0].data) else start, records[1..], id)
  }

  /** The data of an epoch after a write: inserted, then updated if it exists. */
  function DataAfter(before: Option<bytes>, w: Write, g: GroupId, id: nat): Option<bytes> {
    if w.group != g then before
    else
      var held := LastRecord(before, w.inserts, id);
      if held.None? then None else LastRecord(held, w.updates, id)
  }

  /** The latest data of an epoch, from the writes alone. */
  function LatestData(start: Option<bytes>, done: seq<Write>, g: GroupId, id: nat): Option<bytes>
    decreases |done|
  {
    if done == [] then start else LatestData(DataAfter(start, done[0], g, id), done[1..], g, id)
  }

  function At(rows: Rows, id: nat): Option<bytes> {
    if id in rows then Some(rows[id]) else None
  }

  lemma DoneStep(t: Tables, ws: seq<Write>, retention: u64)
    requires ws != []
    ensures var rest := Done(Apply(t, ws[0], retention), ws[1..], retention);
            if Succeeds(t, ws[0], retention)
            then Done(t, ws, retention) != [] && Done(t, ws, retention)[0] == ws[0] && Done(t, ws, retention)[1..] == rest
            else Done(t, ws, retention) == rest
  {
  }

  /** After every run the snapshot of a group is that of its last successful write, and absent if there
      was none. */
  lemma {:induction false} SnapshotAfterRun(t: Tables, hs: map<GroupId, History>, ws: seq<Write>, retention: u64, g: GroupId)
    ensures SnapshotOf(Run(t, hs, ws, retention).0, g)
            == LastSnapshot(SnapshotOf(t, g), Done(t, ws, retention), g)
    decreases |ws|
  {
    if ws != [] {
      var (t', hs') := Step(t, hs, ws[0], retention);
      SnapshotAfterRun(t', hs', ws[1..], retention, g);
      DoneStep(t, ws, retention);
    }
  }

  lemma {:induction false} AddAt(rows: Rows, records: seq<EpochRecord>, id: nat)
    ensures At(AddAll(rows, records), id) == LastRecord(At(rows, id), records, id)
    decreases |records|
  {
    if records != [] { AddAt(rows[records[0].id := records[0].data], records[1..], id); }
  }

  lemma {:induction false} SetAt(rows: Rows, records: seq<EpochRecord>, id: nat)
    ensures At(SetExisting(rows, records), id)
            == if id in rows then LastRecord(At(rows, id), records, id) else None
    decreases |records|
  {
    if records != [] { SetAt(UpdateRow(rows, records[0]), records[1..], id); }
  }

  lemma RecordAt(h: History, w: Write, id: nat)
    ensures At(Record(h, w).epochs, id) == DataAfter(At(h.epochs, id), w, w.group, id)
  {
    AddAt(h.epochs, w.inserts, id);
    SetAt(AddAll(h.epochs, w.inserts), w.updates, id);
  }

  /** The history holds the latest data of every epoch ever inserted. */
  lemma {:induction false} HistoryIsLatest(t: Tables, hs: map<GroupId, History>, ws: seq<Write>, retention: u64,
                                           g: GroupId, id: nat)
    ensures At(HistoryOf(Run(t, hs, ws, retention).1, g).epochs, id)
            == LatestData(At(HistoryOf(hs, g).epochs, id), Done(t, ws, retention), g, id)
    decreases |ws|
  {
    if ws != [] {
      var (t', hs') := Step(t, hs, ws[0], retention);
      HistoryIsLatest(t', hs', ws[1..], retention, g, id);
      DoneStep(t, ws, retention);
      RecordAt(HistoryOf(hs, ws[0].group), ws[0], id);
    }
  }

  /** The window, by the ids of the history. */
  lemma RetainedAt(rows: Rows, h: History, retention: u64, id: nat)
    requires Retained(rows, h, retention)
    ensures At(rows, id) ==
            if forall other: nat :: At(h.epochs, other).Some? ==> id > other - retention then At(h.epochs, id) else None
  {
    if h.top.Some? { assert At(h.epochs, h.top.value).Some?; }
  }

  /** The id lies less than `retention` below every id that a group has had. */
  ghost predicate Recent(done: seq<Write>, g: GroupId, id: nat, retention: u64) {
    forall other: nat :: LatestData(None, done, g, other).Some? ==> id > other - retention
  }

  /** From empty tables, with every write in the window, a lookup returns the latest data of an epoch
      that lies less than `retention` below every epoch ever inserted, and nothing for any other; ids
      that SQLite cannot hold are an error. */
  lemma LookupAfterRun(ws: seq<Write>, retention: u64, g: GroupId, id: u64)
    requires RunInWindow(Tables(map[], map[]), ws, retention)
    ensures var t, done := Run(Tables(map[], map[]), map[], ws, retention).0, Done(Tables(map[], map[]), ws, retention);
            Lookup(t, g, id) ==
            if id > 0x7FFF_FFFF_FFFF_FFFF then Err(SqlEngineError)
            else Ok(if Recent(done, g, id, retention) then LatestData(None, done, g, id) else None)
  {
    RunFromEmpty(ws, retention, g);
    var (t, hs) := Run(Tables(map[], map[]), map[], ws, retention);
    var h, done := HistoryOf(hs, g), Done(Tables(map[], map[]), ws, retention);
    forall other: nat ensures At(h.epochs, other) == LatestData(None, done, g, other) {
      HistoryIsLatest(Tables(map[], map[]), map[], ws, retention, g, other);
    }
    RetainedAt(RowsOf(t, g), h, retention, id);
    assert Lookup(t, g, id) == if id > I64_MAX then Err(SqlEngineError) else Ok(At(RowsOf(t, g), id));
    assert Recent(done, g, id, retention)
           <==> forall other: nat :: At(h.epochs, other).Some? ==> id > other - retention;
  }
}
