/** What the columns hold where rows are deleted behind the session's back: deletes do not reach them. */
module EventColumns {
  import opened Aggregates
  import opened Catalogs
  import opened Columnar
  import opened Engine
  import opened IndexedLookups
  import opened Invariants
  import opened Plans
  import opened Refinement
  import opened Schemas
  import opened Seqs
  import opened TableStores
  import opened Values

  /** Rows under their table and id, such as were stored at some time. */
  type Past = set<((TableId, RowId), Row)>

  /** What was stored at the start of a run, or after one of its events. */
  function Ever(cfg: Config, db: Db, events: seq<Event>): Past
    decreases |events|
  {
    db.rows.data.Items + if events == [] then {} else Ever(cfg, AfterEvent(cfg, db, events[0]), events[1..])
  }

  /** The rows of a table that were stored in the past or are stored now, and that could be indexed. */
  predicate WasPublished(rows: RowState, t: TableId, c: Option<nat>, past: Past, p: (RowId, Row)) {
    (((t, p.0), p.1) in past || ((t, p.0) in rows.data && rows.data[(t, p.0)] == p.1)) && Publishable(c, p.1)
  }

  /** The list of these rows in order of their ids. */
  ghost predicate Recalls(rows: RowState, t: TableId, c: Option<nat>, past: Past, all: seq<(RowId, Row)>) {
    && AscendingIds(all)
    && (forall p :: p in all <==> WasPublished(rows, t, c, past, p))
    && (forall p :: p in all ==> p.0 < rows.next)
    && (forall p :: p in all && (t, p.0) in rows.data ==> rows.data[(t, p.0)] == p.1)
  }

  /** The columns hold these rows, in order, and nothing else. */
  ghost predicate HistoryOk(cfg: Config, db: Db, past: Past, t: TableId, all: seq<(RowId, Row)>)
    requires t in db.catalog.byId
  {
    Recalls(db.rows, t, IndexedColumn(db, t), past, all) && Held(cfg, db, t, all)
  }

  ghost predicate Held(cfg: Config, db: Db, t: TableId, all: seq<(RowId, Row)>)
    requires t in db.catalog.byId
  {
    Covered(cfg.chunkSize, db.catalog.byId[t].schema, ChunksOf(db.columnar, t), BufferOf(db, t), SecondOf(all))
  }

  ghost predicate TableRecalled(cfg: Config, db: Db, past: Past, t: TableId)
    requires t in db.catalog.byId
  {
    exists all :: HistoryOk(cfg, db, past, t, all)
  }

  ghost predicate TablesRecalled(cfg: Config, db: Db, past: Past) {
    forall t :: t in db.catalog.byId ==> TableRecalled(cfg, db, past, t)
  }

  ghost predicate PastTablesGivenOut(db: Db, past: Past) {
    forall x :: x in past ==> x.0.0 < db.catalog.nextTable
  }

  ghost predicate Recalled(cfg: Config, db: Db, past: Past) {
    RowInv(db) && PastTablesGivenOut(db, past) && TablesRecalled(cfg, db, past)
  }

  // ----- rows

  /** A table has the same rows in both stores. */
  ghost predicate SameStored(rows: RowState, rows': RowState, t: TableId) {
    && rows.next <= rows'.next
    && (forall r :: (t, r) in rows.data <==> (t, r) in rows'.data)
    && (forall r :: (t, r) in rows.data ==> rows'.data[(t, r)] == rows.data[(t, r)])
  }

  lemma RecallsSame(rows: RowState, rows': RowState, t: TableId, c: Option<nat>, past: Past, all: seq<(RowId, Row)>)
    requires Recalls(rows, t, c, past, all) && SameStored(rows, rows', t)
    ensures Recalls(rows', t, c, past, all)
  {
    forall p ensures WasPublished(rows, t, c, past, p) <==> WasPublished(rows', t, c, past, p) {
    }
  }

  /** What is stored now may be put down as past. */
  lemma RecallsPast(rows: RowState, t: TableId, c: Option<nat>, past: Past, all: seq<(RowId, Row)>)
    requires Recalls(rows, t, c, past, all)
    ensures Recalls(rows, t, c, past + rows.data.Items, all)
  {
    forall p ensures WasPublished(rows, t, c, past, p) <==> WasPublished(rows, t, c, past + rows.data.Items, p) {
    }
  }

  /** What has been put down may be deleted. */
  lemma RecallsDeleted(rows: RowState, t: TableId, c: Option<nat>, past: Past, all: seq<(RowId, Row)>, u: TableId,
                       rid: RowId)
    requires Recalls(rows, t, c, past, all) && rows.data.Items <= past
    ensures Recalls(DeleteRow(rows, u, rid), t, c, past, all)
  {
    var rows' := DeleteRow(rows, u, rid);
    forall p ensures WasPublished(rows, t, c, past, p) <==> WasPublished(rows', t, c, past, p) {
      if (t, p.0) in rows.data && rows.data[(t, p.0)] == p.1 {
        assert ((t, p.0), p.1) in rows.data.Items;
      }
    }
  }

  /** The list with one row more, if that could be indexed. */
  function WithRow(all: seq<(RowId, Row)>, rid: RowId, row: Row, c: Option<nat>): seq<(RowId, Row)> {
    if Publishable(c, row) then all + [(rid, row)] else all
  }

  lemma RecallsMore(rows: RowState, t: TableId, c: Option<nat>, past: Past, all: seq<(RowId, Row)>, row: Row)
    requires Recalls(rows, t, c, past, all) && IdsGivenOut(rows)
    ensures Recalls(InsertRow(rows, t, row), t, c, past, WithRow(all, rows.next, row, c))
  {
    var rows', all' := InsertRow(rows, t, row), WithRow(all, rows.next, row, c);
    assert forall i :: 0 <= i < |all| ==> all[i] in all;
    forall p ensures p in all' <==> WasPublished(rows', t, c, past, p) {
      assert p in all' <==> p in all || (Publishable(c, row) && p == (rows.next, row));
      if p == (rows.next, row) {
        assert WasPublished(rows', t, c, past, p) <==> Publishable(c, row);
      } else if p.0 == rows.next {
        assert p !in all;
      }
    }
  }

  lemma SecondOfMore(all: seq<(RowId, Row)>, rid: RowId, row: Row)
    ensures SecondOf(all + [(rid, row)]) == SecondOf(all) + [row]
  {
    MapConcat((p: (RowId, Row)) => p.1, all, [(rid, row)]);
  }

  // ----- every change

  lemma RecalledFrame(cfg: Config, db: Db, db': Db, past: Past, t: TableId)
    requires t in db.catalog.byId && t in db'.catalog.byId && db'.catalog.byId[t] == db.catalog.byId[t]
    requires TableRecalled(cfg, db, past, t) && SameTable(db, db', t) && SameStored(db.rows, db'.rows, t)
    ensures TableRecalled(cfg, db', past, t)
  {
    var all :| HistoryOk(cfg, db, past, t, all);
    RecallsSame(db.rows, db'.rows, t, IndexedColumn(db, t), past, all);
    assert HistoryOk(cfg, db', past, t, all);
  }

  /** Two sessions that differ in table `t` only. */
  ghost predicate OnlyTable(db: Db, db': Db, t: TableId) {
    forall u :: u in db'.catalog.byId && u != t ==>
      && u in db.catalog.byId && db'.catalog.byId[u] == db.catalog.byId[u]
      && SameTable(db, db', u) && SameStored(db.rows, db'.rows, u)
  }

  lemma OthersRecalled(cfg: Config, db: Db, db': Db, past: Past, t: TableId)
    requires TablesRecalled(cfg, db, past) && OnlyTable(db, db', t)
    ensures forall u :: u in db'.catalog.byId && u != t ==> TableRecalled(cfg, db', past, u)
  {
    forall u | u in db'.catalog.byId && u != t ensures TableRecalled(cfg, db', past, u) {
      assert TableRecalled(cfg, db, past, u);
      RecalledFrame(cfg, db, db', past, u);
    }
  }

  lemma IsRecalled(cfg: Config, db: Db, past: Past, t: TableId, all: seq<(RowId, Row)>)
    requires t in db.catalog.byId && HistoryOk(cfg, db, past, t, all)
    ensures TableRecalled(cfg, db, past, t)
  {
  }

  lemma FlushTouches(db: Db, t: TableId, schema: Schema) returns (db': Db)
    requires t in db.catalog.byId
    ensures db' == FlushBuffer(db, t, schema) && db'.catalog == db.catalog && OnlyTable(db, db', t)
    ensures db'.rows == db.rows && IndexedColumn(db', t) == IndexedColumn(db, t)
  {
    db' := FlushBuffer(db, t, schema);
    FlushIsLocal(db, t, schema);
  }

  lemma FlushRecallsTable(cfg: Config, db: Db, past: Past, t: TableId) returns (db': Db)
    requires t in db.catalog.byId && TableRecalled(cfg, db, past, t)
    ensures db' == FlushBuffer(db, t, db.catalog.byId[t].schema)
    ensures t in db'.catalog.byId && TableRecalled(cfg, db', past, t)
  {
    var all :| HistoryOk(cfg, db, past, t, all);
    FlushCovered(cfg, db, t, db.catalog.byId[t].schema, SecondOf(all));
    db' := FlushTouches(db, t, db.catalog.byId[t].schema);
    IsRecalled(cfg, db', past, t, all);
  }

  lemma FlushKeepsRecalled(cfg: Config, db: Db, past: Past, t: TableId)
    requires Recalled(cfg, db, past) && t in db.catalog.byId
    ensures Recalled(cfg, FlushBuffer(db, t, db.catalog.byId[t].schema), past)
  {
    FlushKeepsRowInv(db, t, db.catalog.byId[t].schema);
    assert TableRecalled(cfg, db, past, t);
    var db' := FlushRecallsTable(cfg, db, past, t);
    var same := FlushTouches(db, t, db.catalog.byId[t].schema);
    OthersRecalled(cfg, db, same, past, t);
  }

  /** The table that a row is inserted into. */
  lemma InsertRecalls(cfg: Config, db: Db, past: Past, meta: TableMeta, row: Row) returns (db': Db)
    requires RowInv(db) && Known(db, meta) && TableRecalled(cfg, db, past, meta.id)
    ensures db' == InsertOne(cfg, db, meta, row).0 && Known(db', meta) && TableRecalled(cfg, db', past, meta.id)
  {
    var t, c := meta.id, IndexedColumn(db, meta.id);
    var all :| HistoryOk(cfg, db, past, t, all);
    InsertHistory(cfg, db, past, meta, row, all);
    db' := InsertOne(cfg, db, meta, row).0;
    IsRecalled(cfg, db', past, t, WithRow(all, db.rows.next, row, c));
  }

  lemma InsertHolds(cfg: Config, db: Db, meta: TableMeta, row: Row, all: seq<(RowId, Row)>)
    requires RowInv(db) && Known(db, meta) && Held(cfg, db, meta.id, all)
    ensures
      var db' := InsertOne(cfg, db, meta, row).0;
      Known(db', meta)
      && Held(cfg, db', meta.id, WithRow(all, db.rows.next, row, IndexedColumn(db, meta.id)))
  {
    var t := meta.id;
    var (db', error) := InsertOne(cfg, db, meta, row);
    InsertIsLocal(cfg, db, meta, row);
    IdCellIsIndexed(db, meta, row);
    if error.None? {
      var indexed := db.(rows := db'.rows, indexes := db'.indexes);
      assert db' == PushRow(cfg, indexed, t, meta.schema, row);
      PushCovered(cfg, indexed, t, meta.schema, SecondOf(all), row);
      SecondOfMore(all, db.rows.next, row);
    }
  }

  lemma InsertHistory(cfg: Config, db: Db, past: Past, meta: TableMeta, row: Row, all: seq<(RowId, Row)>)
    requires RowInv(db) && Known(db, meta) && HistoryOk(cfg, db, past, meta.id, all)
    ensures
      var db' := InsertOne(cfg, db, meta, row).0;
      Known(db', meta)
      && HistoryOk(cfg, db', past, meta.id, WithRow(all, db.rows.next, row, IndexedColumn(db, meta.id)))
  {
    InsertHolds(cfg, db, meta, row, all);
    InsertIsLocal(cfg, db, meta, row);
    IndexesAfterShape(db, meta, row);
    RecallsMore(db.rows, meta.id, IndexedColumn(db, meta.id), past, all, row);
  }

  lemma InsertTouches(cfg: Config, db: Db, meta: TableMeta, row: Row) returns (db': Db)
    requires IdsGivenOut(db.rows) && Known(db, meta)
    ensures db' == InsertOne(cfg, db, meta, row).0 && db'.catalog == db.catalog && OnlyTable(db, db', meta.id)
  {
    db' := InsertOne(cfg, db, meta, row).0;
    InsertIsLocal(cfg, db, meta, row);
    InsertLeavesOthers(cfg, db, meta, row);
  }

  lemma InsertKeepsRecalled(cfg: Config, db: Db, past: Past, meta: TableMeta, row: Row)
    requires Recalled(cfg, db, past) && Known(db, meta)
    ensures Recalled(cfg, InsertOne(cfg, db, meta, row).0, past)
  {
    InsertKeepsRowInv(cfg, db, meta, row);
    assert TableRecalled(cfg, db, past, meta.id);
    var db' := InsertRecalls(cfg, db, past, meta, row);
    var same := InsertTouches(cfg, db, meta, row);
    OthersRecalled(cfg, db, same, past, meta.id);
  }

  lemma NothingRecalled(cfg: Config, db: Db, past: Past, t: TableId)
    requires cfg.chunkSize > 0 && t in db.catalog.byId && (forall k :: k in db.rows.data ==> k.0 != t)
    requires ChunksOf(db.columnar, t) == [] && BufferOf(db, t) == [] && (forall x :: x in past ==> x.0.0 != t)
    ensures TableRecalled(cfg, db, past, t)
  {
    NothingCovered(cfg.chunkSize, db.catalog.byId[t].schema);
    assert SecondOf([]) == [];
    forall p ensures !WasPublished(db.rows, t, IndexedColumn(db, t), past, p) {
    }
    assert HistoryOk(cfg, db, past, t, []);
  }

  lemma CreateTouches(db: Db, namespace: Option<string>, table: string, columns: seq<(string, ColumnType)>)
      returns (db': Db)
    requires RowInv(db)
    ensures db' == CreateNew(db, namespace, table, columns) && db'.catalog.nextTable > db.catalog.nextTable
    ensures var t := db.catalog.nextTable;
      && OnlyTable(db, db', t) && t in db'.catalog.byId && (forall k :: k in db'.rows.data ==> k.0 != t)
      && ChunksOf(db'.columnar, t) == [] && BufferOf(db', t) == []
  {
    db' := CreateNew(db, namespace, table, columns);
    CreateEnters(db.catalog, NamespaceOf(namespace), table, TableSchema(columns), None);
    CreateIsLocal(db, namespace, table, columns);
  }

  lemma CreatedRecalled(cfg: Config, db: Db, past: Past, namespace: Option<string>, table: string,
                        columns: seq<(string, ColumnType)>) returns (db': Db)
    requires cfg.chunkSize > 0 && Recalled(cfg, db, past)
    ensures db' == CreateNew(db, namespace, table, columns)
    ensures TablesRecalled(cfg, db', past) && PastTablesGivenOut(db', past)
  {
    db' := CreateTouches(db, namespace, table, columns);
    OthersRecalled(cfg, db, db', past, db.catalog.nextTable);
    NothingRecalled(cfg, db', past, db.catalog.nextTable);
  }

  lemma CreateKeepsRecalled(cfg: Config, db: Db, past: Past, namespace: Option<string>, table: string,
                            columns: seq<(string, ColumnType)>)
    requires cfg.chunkSize > 0 && Recalled(cfg, db, past)
    ensures Recalled(cfg, CreateNew(db, namespace, table, columns), past)
  {
    CreateKeepsRowInv(db, namespace, table, columns);
    var db' := CreatedRecalled(cfg, db, past, namespace, table, columns);
  }

  lemma DropLeavesStored(rows: RowState, t: TableId)
    ensures forall u :: u != t ==> SameStored(rows, DropRows(rows, t), u)
  {
  }

  lemma DropTouches(db: Db, namespace: Option<string>, table: string, meta: TableMeta) returns (db': Db)
    requires RowInv(db) && FindTable(db, namespace, table) == Success(meta)
    ensures db' == DropExisting(db, namespace, table, meta) && OnlyTable(db, db', meta.id)
    ensures meta.id !in db'.catalog.byId && db'.catalog.nextTable == db.catalog.nextTable
  {
    db' := DropExisting(db, namespace, table, meta);
    DropRemovesOne(db.catalog, NamespaceOf(namespace), table);
    DropIsLocal(db, namespace, table, meta);
    DropLeavesStored(db.rows, meta.id);
    assert db'.rows == DropRows(db.rows, meta.id);
  }

  lemma DropKeepsRecalled(cfg: Config, db: Db, past: Past, namespace: Option<string>, table: string, meta: TableMeta)
    requires Recalled(cfg, db, past) && FindTable(db, namespace, table) == Success(meta)
    ensures Recalled(cfg, DropExisting(db, namespace, table, meta), past)
  {
    DropKeepsRowInv(db, namespace, table, meta);
    var db' := DropTouches(db, namespace, table, meta);
    OthersRecalled(cfg, db, db', past, meta.id);
  }

  lemma RecalledIsStable(cfg: Config, past: Past)
    requires cfg.chunkSize > 0
    ensures Stable(cfg, db => Recalled(cfg, db, past))
  {
    forall db, t | Recalled(cfg, db, past) && t in db.catalog.byId
      ensures Recalled(cfg, FlushBuffer(db, t, db.catalog.byId[t].schema), past)
    {
      FlushKeepsRecalled(cfg, db, past, t);
    }
    forall db, meta, row | Recalled(cfg, db, past) && Known(db, meta)
      ensures Recalled(cfg, InsertOne(cfg, db, meta, row).0, past)
    {
      InsertKeepsRecalled(cfg, db, past, meta, row);
    }
    forall db, namespace, table, columns | Recalled(cfg, db, past)
      ensures Recalled(cfg, CreateNew(db, namespace, table, columns), past)
    {
      CreateKeepsRecalled(cfg, db, past, namespace, table, columns);
    }
    forall db, namespace, table, meta | Recalled(cfg, db, past) && FindTable(db, namespace, table) == Success(meta)
      ensures Recalled(cfg, DropExisting(db, namespace, table, meta), past)
    {
      DropKeepsRecalled(cfg, db, past, namespace, table, meta);
    }
  }

  // ----- events

  lemma PutDown(cfg: Config, db: Db, past: Past)
    requires Recalled(cfg, db, past)
    ensures Recalled(cfg, db, past + db.rows.data.Items)
  {
    forall t | t in db.catalog.byId ensures TableRecalled(cfg, db, past + db.rows.data.Items, t) {
      assert TableRecalled(cfg, db, past, t);
      var all :| HistoryOk(cfg, db, past, t, all);
      RecallsPast(db.rows, t, IndexedColumn(db, t), past, all);
      assert HistoryOk(cfg, db, past + db.rows.data.Items, t, all);
    }
  }

  lemma DeleteKeepsRecalled(cfg: Config, db: Db, past: Past, t: TableId, rid: RowId)
    requires Recalled(cfg, db, past) && db.rows.data.Items <= past
    ensures Recalled(cfg, db.(rows := DeleteRow(db.rows, t, rid)), past)
  {
    var db' := db.(rows := DeleteRow(db.rows, t, rid));
    DeleteKeepsRowInv(db, t, rid);
    forall u | u in db'.catalog.byId ensures TableRecalled(cfg, db', past, u) {
      assert TableRecalled(cfg, db, past, u);
      var all :| HistoryOk(cfg, db, past, u, all);
      RecallsDeleted(db.rows, u, IndexedColumn(db, u), past, all, t, rid);
      assert HistoryOk(cfg, db', past, u, all);
    }
  }

  lemma EventKeepsRecalled(cfg: Config, db: Db, past: Past, event: Event)
    requires cfg.chunkSize > 0 && Recalled(cfg, db, past) && db.rows.data.Items <= past
    ensures Recalled(cfg, AfterEvent(cfg, db, event), past)
  {
    match event
    case Statement(plan) =>
      RecalledIsStable(cfg, past);
      ExecKeeps(cfg, x => Recalled(cfg, x, past), db, plan);
    case DocumentDelete(t, rid) => DeleteKeepsRecalled(cfg, db, past, t, rid);
  }

  /** Over every run of statements and document deletes the columns of each table hold, in order, all rows that
      were ever stored in it and could be indexed, and nothing else. */
  lemma {:induction false} EventsKeepRecalled(cfg: Config, db: Db, past: Past, events: seq<Event>)
    requires cfg.chunkSize > 0 && Recalled(cfg, db, past)
    ensures Recalled(cfg, RunEvents(cfg, db, events), past + Ever(cfg, db, events))
    decreases |events|
  {
    var past' := past + db.rows.data.Items;
    PutDown(cfg, db, past);
    if events == [] {
      assert past + Ever(cfg, db, events) == past';
    } else {
      var next := AfterEvent(cfg, db, events[0]);
      EventKeepsRecalled(cfg, db, past', events[0]);
      EventsKeepRecalled(cfg, next, past', events[1..]);
      assert past + Ever(cfg, db, events) == past' + Ever(cfg, next, events[1..]);
    }
  }

  lemma {:induction false} EndIsEver(cfg: Config, db: Db, events: seq<Event>)
    ensures RunEvents(cfg, db, events).rows.data.Items <= Ever(cfg, db, events)
    decreases |events|
  {
    if events != [] {
      EndIsEver(cfg, AfterEvent(cfg, db, events[0]), events[1..]);
    }
  }

  // ----- what is still stored

  function IdsOf(pairs: seq<(RowId, Row)>): seq<RowId> {
    Map((p: (RowId, Row)) => p.0, pairs)
  }

  function StillStored(data: RowMap, t: TableId, pairs: seq<(RowId, Row)>): seq<(RowId, Row)> {
    Select((p: (RowId, Row)) => (t, p.0) in data, pairs)
  }

  lemma {:induction false} IdsStillStored(data: RowMap, t: TableId, pairs: seq<(RowId, Row)>)
    ensures IdsOf(StillStored(data, t, pairs)) == Select(IsStored(data, t), IdsOf(pairs))
  {
    if pairs != [] {
      var front, last := pairs[..|pairs| - 1], pairs[|pairs| - 1];
      IdsStillStored(data, t, front);
      assert IdsOf(pairs)[..|pairs| - 1] == IdsOf(front);
      MapConcat((p: (RowId, Row)) => p.0, StillStored(data, t, front), [last]);
    }
  }

  lemma FetchedAgain(data: RowMap, t: TableId, pairs: seq<(RowId, Row)>)
    requires forall p :: p in pairs ==> (t, p.0) in data && data[(t, p.0)] == p.1
    ensures Fetch(data, t, IdsOf(pairs)) == SecondOf(pairs)
  {
    forall r | r in IdsOf(pairs) ensures (t, r) in data {
      var i :| 0 <= i < |pairs| && IdsOf(pairs)[i] == r;
      assert pairs[i] in pairs;
    }
    FetchIsMap(data, t, IdsOf(pairs));
    forall i | 0 <= i < |pairs| ensures Fetch(data, t, IdsOf(pairs))[i] == pairs[i].1 {
      assert pairs[i] in pairs;
    }
  }

  lemma IdsMembers(pairs: seq<(RowId, Row)>, r: RowId)
    ensures r in IdsOf(pairs) <==> exists p :: p in pairs && p.0 == r
  {
    if r in IdsOf(pairs) {
      var i :| 0 <= i < |pairs| && IdsOf(pairs)[i] == r;
      assert pairs[i] in pairs;
    }
    if p :| p in pairs && p.0 == r {
      MapMember((q: (RowId, Row)) => q.0, pairs, p);
    }
  }

  lemma IdsAreStoredWhere(rows: RowState, t: TableId, c: Option<nat>, past: Past, all: seq<(RowId, Row)>)
    requires Recalls(rows, t, c, past, all) && IdsGivenOut(rows)
    ensures IdsOf(StillStored(rows.data, t, all))
         == Select(StoredWhere(rows.data, t, (row: Row) => Publishable(c, row)), TableRids(rows, t))
  {
    var p := (row: Row) => Publishable(c, row);
    var ids, found := IdsOf(StillStored(rows.data, t, all)), Select(StoredWhere(rows.data, t, p), TableRids(rows, t));
    RidsMembers(rows.data, t, rows.next);
    SelectAscending(StoredWhere(rows.data, t, p), TableRids(rows, t));
    IdsStillStored(rows.data, t, all);
    assert Ascending(IdsOf(all));
    SelectAscending(IsStored(rows.data, t), IdsOf(all));
    forall r: RowId ensures r in ids <==> r in found {
      IdsMembers(all, r);
      if (t, r) in rows.data {
        var row := rows.data[(t, r)];
        assert WasPublished(rows, t, c, past, (r, row)) <==> Publishable(c, row);
      }
    }
    AscendingIsUnique(ids, found);
  }

  /** The published rows are those of all ever published that are still stored, in order. */
  lemma PublishedAreStillStored(rows: RowState, t: TableId, c: Option<nat>, past: Past, all: seq<(RowId, Row)>)
    requires Recalls(rows, t, c, past, all) && IdsGivenOut(rows)
    ensures PublishedRows(c, TableRows(rows, t)) == SecondOf(StillStored(rows.data, t, all))
  {
    IdsAreStoredWhere(rows, t, c, past, all);
    RidsMembers(rows.data, t, rows.next);
    FetchSelect(rows.data, t, TableRids(rows, t), (row: Row) => Publishable(c, row));
    FetchedAgain(rows.data, t, StillStored(rows.data, t, all));
  }

  // ----- what aggregates answer

  lemma FlushedHistory(cfg: Config, db: Db, t: TableId, all: seq<(RowId, Row)>) returns (segments: seq<seq<Row>>)
    requires t in db.catalog.byId && Held(cfg, db, t, all)
    ensures
      var chunks := ChunksOf(FlushBuffer(db, t, db.catalog.byId[t].schema).columnar, t);
      HoldsSegments(db.catalog.byId[t].schema, chunks, segments) && Concat(segments) == SecondOf(all)
    ensures forall s :: s in segments ==> s != []
  {
    var schema := db.catalog.byId[t].schema;
    FlushCovered(cfg, db, t, schema, SecondOf(all));
    segments := SegmentsOf(cfg.chunkSize, schema, ChunksOf(FlushBuffer(db, t, schema).columnar, t), SecondOf(all));
  }

  lemma ChunksOfHistory(cfg: Config, db: Db, meta: TableMeta, all: seq<(RowId, Row)>, aggs: seq<AggExpr>)
    requires Consistent(db.catalog) && Known(db, meta) && Held(cfg, db, meta.id, all)
    requires forall agg :: agg in aggs ==> ChunkSafe(meta.schema, SecondOf(all), agg)
    ensures
      var chunks := ChunksOf(FlushBuffer(db, meta.id, meta.schema).columnar, meta.id);
      && RowAggregates(SecondOf(all), meta.schema, aggs) == Success(ChunkAggregates(chunks, aggs))
      && (chunks == [] <==> all == [])
  {
    var segments := FlushedHistory(cfg, db, meta.id, all);
    NonEmptyConcat(segments);
    RowAggregatesFromChunks(meta.schema, ChunksOf(FlushBuffer(db, meta.id, meta.schema).columnar, meta.id), segments,
                            aggs);
  }

  lemma CountOfHistory(cfg: Config, db: Db, input: PlanNode, meta: TableMeta, all: seq<(RowId, Row)>)
    requires Consistent(db.catalog) && input.Scan? && ScanMeta(db, input) == Success(meta) && meta.schema.columns != []
    requires meta.id in db.catalog.byId && Held(cfg, db, meta.id, all)
    ensures Exec(cfg, db, Aggregate(input, [CountStar])).1
         == OneCount(if all == [] then |TableRows(db.rows, meta.id)| else |all|)
  {
    ScannedIsKnown(db, input);
    SafeCount(meta.schema, SecondOf(all));
    ChunksOfHistory(cfg, db, meta, all, [CountStar]);
    CountRows(SecondOf(all), meta.schema);
    CountRows(TableRows(db.rows, meta.id), meta.schema);
    AggregatePaths(cfg, db, input, meta, [CountStar]);
  }

  /** None of these rows was deleted. */
  ghost predicate NoneDeleted(db: Db, t: TableId, all: seq<(RowId, Row)>) {
    forall p :: p in all ==> (t, p.0) in db.rows.data
  }

  lemma StillStoredAll(db: Db, t: TableId, all: seq<(RowId, Row)>)
    ensures |StillStored(db.rows.data, t, all)| <= |all|
    ensures |StillStored(db.rows.data, t, all)| == |all| <==> NoneDeleted(db, t, all)
  {
    var p, any := (p: (RowId, Row)) => (t, p.0) in db.rows.data, (p: (RowId, Row)) => true;
    SelectSameLength(p, any, all);
    SelectAll(any, all);
    if NoneDeleted(db, t, all) {
      SelectAll(p, all);
    }
  }

  lemma CountWithHistory(cfg: Config, db: Db, past: Past, input: PlanNode, meta: TableMeta, all: seq<(RowId, Row)>)
    requires RowInv(db) && input.Scan? && ScanMeta(db, input) == Success(meta) && meta.schema.columns != []
    requires meta.id in db.catalog.byId && HistoryOk(cfg, db, past, meta.id, all)
    requires |TableRows(db.rows, meta.id)| <= I64_MAX && |all| <= I64_MAX
    ensures
      && (CountIsRight(cfg, db, input) <==> all == [] || |all| == |TableRows(db.rows, meta.id)|)
      && (AllPublished(db, meta.id) ==> (CountIsRight(cfg, db, input) <==> all == [] || NoneDeleted(db, meta.id, all)))
  {
    CountOfHistory(cfg, db, input, meta, all);
    CountStarReference(cfg.render, db, input, meta);
    CountsDiffer(|all|, |TableRows(db.rows, meta.id)|);
    PublishedAreStillStored(db.rows, meta.id, IndexedColumn(db, meta.id), past, all);
    StillStoredAll(db, meta.id, all);
  }

  ghost predicate CountIsRight(cfg: Config, db: Db, input: PlanNode) {
    Exec(cfg, db, Aggregate(input, [CountStar])).1
      == AsOutcome(Evaluate(cfg.render, db, Aggregate(input, [CountStar])))
  }

  // ----- whole runs

  /** The rows that were ever stored in a table and could be indexed, under their ids. */
  function EverPublished(cfg: Config, catalog: CatalogState, events: seq<Event>, t: TableId): set<(RowId, Row)> {
    var c := IndexedColumn(RunEvents(cfg, NewSession(catalog), events), t);
    set x | x in Ever(cfg, NewSession(catalog), events) && x.0.0 == t && Publishable(c, x.1) :: (x.0.1, x.1)
  }

  /** The list of a set of rows in order of their ids. */
  ghost predicate Lists(all: seq<(RowId, Row)>, rows: set<(RowId, Row)>) {
    AscendingIds(all) && forall p :: p in all <==> p in rows
  }

  lemma LastIsGreatest(a: seq<(RowId, Row)>, p: (RowId, Row))
    requires AscendingIds(a) && p in a
    ensures p.0 <= a[|a| - 1].0
    ensures p in a[..|a| - 1] <==> p.0 != a[|a| - 1].0
  {
    var i :| 0 <= i < |a| && a[i] == p;
    if i < |a| - 1 {
      assert a[..|a| - 1][i] == p;
    }
  }

  lemma EmptyTogether(a: seq<(RowId, Row)>, b: seq<(RowId, Row)>)
    requires forall p :: p in a <==> p in b
    ensures a == [] <==> b == []
  {
    if a != [] {
      assert a[0] in b;
    }
    if b != [] {
      assert b[0] in a;
    }
  }

  lemma {:induction false} OneList(a: seq<(RowId, Row)>, b: seq<(RowId, Row)>)
    requires AscendingIds(a) && AscendingIds(b) && (forall p :: p in a <==> p in b)
    ensures a == b
  {
    EmptyTogether(a, b);
    if a != [] {
      var f, g, x, y := a[..|a| - 1], b[..|b| - 1], a[|a| - 1], b[|b| - 1];
      assert x in b && y in a;
      LastIsGreatest(a, y);
      LastIsGreatest(b, x);
      assert (forall p :: p in f ==> p in a) && (forall p :: p in g ==> p in b);
      forall p ensures p in f <==> p in g {
        if p in a {
          LastIsGreatest(a, p);
          LastIsGreatest(b, p);
        }
      }
      OneList(f, g);
    }
  }

  lemma {:induction false} ListedCount(all: seq<(RowId, Row)>, rows: set<(RowId, Row)>)
    requires Lists(all, rows)
    ensures |all| == |rows|
  {
    if all == [] {
      assert rows == {};
    } else {
      var n := |all| - 1;
      assert all == all[..n] + [all[n]];
      assert all[n] !in all[..n];
      ListedCount(all[..n], rows - {all[n]});
    }
  }

  lemma NewSessionRecalled(cfg: Config, catalog: CatalogState)
    requires cfg.chunkSize > 0 && Consistent(catalog)
    ensures Recalled(cfg, NewSession(catalog), {})
  {
    var start := NewSession(catalog);
    EmptySessionRowInv(catalog);
    forall u | u in start.catalog.byId ensures TableRecalled(cfg, start, {}, u) {
      NothingRecalled(cfg, start, {}, u);
    }
  }

  lemma RecalledAreEver(cfg: Config, catalog: CatalogState, events: seq<Event>, t: TableId, all: seq<(RowId, Row)>)
    requires
      var db := RunEvents(cfg, NewSession(catalog), events);
      Recalls(db.rows, t, IndexedColumn(db, t), Ever(cfg, NewSession(catalog), events), all)
    ensures Lists(all, EverPublished(cfg, catalog, events, t))
  {
    var db := RunEvents(cfg, NewSession(catalog), events);
    var ever := Ever(cfg, NewSession(catalog), events);
    EndIsEver(cfg, NewSession(catalog), events);
    forall p: (RowId, Row) ensures p in all <==> p in EverPublished(cfg, catalog, events, t) {
      if (t, p.0) in db.rows.data && db.rows.data[(t, p.0)] == p.1 {
        assert ((t, p.0), p.1) in db.rows.data.Items;
      }
      if p in all {
        var x := ((t, p.0), p.1);
        assert x in ever && p == (x.0.1, x.1);
      }
    }
  }

  lemma EveryTableRecalled(cfg: Config, catalog: CatalogState, events: seq<Event>, t: TableId)
    requires cfg.chunkSize > 0 && Consistent(catalog) && t in RunEvents(cfg, NewSession(catalog), events).catalog.byId
    ensures
      TableRecalled(cfg, RunEvents(cfg, NewSession(catalog), events), Ever(cfg, NewSession(catalog), events), t)
  {
    NewSessionRecalled(cfg, catalog);
    EventsKeepRecalled(cfg, NewSession(catalog), {}, events);
    NothingBefore(Ever(cfg, NewSession(catalog), events));
  }

  lemma NothingBefore(ever: Past)
    ensures {} + ever == ever
  {
  }

  /** Every table of every run has its history: the columns hold, in order, the rows that were ever stored in
      it and could be indexed, and nothing else. */
  lemma ColumnsHoldHistory(cfg: Config, catalog: CatalogState, events: seq<Event>, t: TableId)
      returns (all: seq<(RowId, Row)>)
    requires cfg.chunkSize > 0 && Consistent(catalog) && t in RunEvents(cfg, NewSession(catalog), events).catalog.byId
    ensures Lists(all, EverPublished(cfg, catalog, events, t))
    ensures
      HistoryOk(cfg, RunEvents(cfg, NewSession(catalog), events), Ever(cfg, NewSession(catalog), events), t, all)
  {
    EveryTableRecalled(cfg, catalog, events, t);
    var db, ever := RunEvents(cfg, NewSession(catalog), events), Ever(cfg, NewSession(catalog), events);
    all :| HistoryOk(cfg, db, ever, t, all);
    RecalledAreEver(cfg, catalog, events, t, all);
  }

  /** Once a row was published, an aggregate over its table is that of all rows ever stored in it that could be
      indexed, deleted ones included. */
  lemma AggregateOfHistory(cfg: Config, catalog: CatalogState, events: seq<Event>, input: PlanNode, meta: TableMeta,
                           all: seq<(RowId, Row)>, aggs: seq<AggExpr>)
    requires cfg.chunkSize > 0 && Consistent(catalog)
    requires ScanMeta(RunEvents(cfg, NewSession(catalog), events), input) == Success(meta)
    requires Lists(all, EverPublished(cfg, catalog, events, meta.id)) && all != []
    requires forall agg :: agg in aggs ==> ChunkSafe(meta.schema, SecondOf(all), agg)
    ensures Exec(cfg, RunEvents(cfg, NewSession(catalog), events), Aggregate(input, aggs)).1
         == AsOneRow(RowAggregates(SecondOf(all), meta.schema, aggs))
  {
    var db := RunEvents(cfg, NewSession(catalog), events);
    EmptySessionRowInv(catalog);
    RunEventsKeepsRowInv(cfg, NewSession(catalog), events);
    ScannedIsKnown(db, input);
    var held := ColumnsHoldHistory(cfg, catalog, events, meta.id);
    OneList(all, held);
    ChunksOfHistory(cfg, db, meta, all, aggs);
    AggregateReadsWholeTable(cfg, db, input, meta, aggs);
  }

  /** With deletes, COUNT(*) over a table is right exactly when no row was ever published in it, or as many rows
      are stored as were ever stored and could be indexed. Where every stored row could be, that is when none
      of those was deleted. */
  lemma CountAfterDeletesIff(cfg: Config, catalog: CatalogState, events: seq<Event>, input: PlanNode, meta: TableMeta)
    requires cfg.chunkSize > 0 && Consistent(catalog) && input.Scan? && meta.schema.columns != []
    requires ScanMeta(RunEvents(cfg, NewSession(catalog), events), input) == Success(meta)
    requires |TableRows(RunEvents(cfg, NewSession(catalog), events).rows, meta.id)| <= I64_MAX
    requires |EverPublished(cfg, catalog, events, meta.id)| <= I64_MAX
    ensures
      var db, ever := RunEvents(cfg, NewSession(catalog), events), EverPublished(cfg, catalog, events, meta.id);
      && (CountIsRight(cfg, db, input) <==> ever == {} || |ever| == |TableRows(db.rows, meta.id)|)
      && (AllPublished(db, meta.id) ==>
            (CountIsRight(cfg, db, input) <==>
             ever == {} || forall p: (RowId, Row) :: p in ever ==> (meta.id, p.0) in db.rows.data))
  {
    var db := RunEvents(cfg, NewSession(catalog), events);
    EmptySessionRowInv(catalog);
    RunEventsKeepsRowInv(cfg, NewSession(catalog), events);
    ScannedIsKnown(db, input);
    var all := ColumnsHoldHistory(cfg, catalog, events, meta.id);
    ListedCount(all, EverPublished(cfg, catalog, events, meta.id));
    CountWithHistory(cfg, db, Ever(cfg, NewSession(catalog), events), input, meta, all);
    assert all == [] <==> EverPublished(cfg, catalog, events, meta.id) == {};
  }
}
