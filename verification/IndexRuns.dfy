/** The keys that runs put into an index, and the range of an index that is given no end. */
module IndexRuns {
  import opened BTreeIndexes
  import opened Catalogs
  import opened Engine
  import opened IndexKeys
  import opened IndexedLookups
  import opened Invariants
  import opened Plans
  import opened Schemas
  import opened Seqs
  import opened TableStores
  import opened Values
  import Lex

  ghost predicate AllKeysMade(db: Db) {
    forall k :: k in db.indexes ==> KeysMade(db.indexes[k])
  }

  ghost predicate Keyed(db: Db) {
    RowInv(db) && AllKeysMade(db)
  }

  lemma FlushKeepsKeyed(db: Db, t: TableId, schema: Schema)
    requires Keyed(db) && t in db.catalog.byId
    ensures Keyed(FlushBuffer(db, t, schema))
  {
    FlushKeepsRowInv(db, t, schema);
  }

  lemma PostedKeyMade(db: Db, meta: TableMeta, row: Row)
    requires AllKeysMade(db) && (meta.id, ID) in db.indexes
    ensures IndexesAfter(db, meta, row).Keys == db.indexes.Keys
    ensures forall k :: k in db.indexes ==> KeysMade(IndexesAfter(db, meta, row)[k])
  {
    var cell := IdCell(db, meta, row);
    if cell.Some? && FromValue(cell.value).Success? {
      AddKeepsKeysMade(db.indexes[(meta.id, ID)], cell.value, db.rows.next);
    }
  }

  lemma InsertKeepsKeyed(cfg: Config, db: Db, meta: TableMeta, row: Row)
    requires Keyed(db) && Known(db, meta)
    ensures Keyed(InsertOne(cfg, db, meta, row).0)
  {
    InsertKeepsRowInv(cfg, db, meta, row);
    InsertIsLocal(cfg, db, meta, row);
    if (meta.id, ID) in db.indexes {
      PostedKeyMade(db, meta, row);
    }
  }

  lemma KeyedIsStable(cfg: Config)
    ensures Stable(cfg, db => Keyed(db))
  {
    forall db, t | Keyed(db) && t in db.catalog.byId ensures Keyed(FlushBuffer(db, t, db.catalog.byId[t].schema)) {
      FlushKeepsKeyed(db, t, db.catalog.byId[t].schema);
    }
    forall db, meta, row | Keyed(db) && Known(db, meta) ensures Keyed(InsertOne(cfg, db, meta, row).0) {
      InsertKeepsKeyed(cfg, db, meta, row);
    }
    forall db, namespace, table, columns | Keyed(db) ensures Keyed(CreateNew(db, namespace, table, columns)) {
      CreateKeepsRowInv(db, namespace, table, columns);
    }
    forall db, namespace, table, meta | Keyed(db) && FindTable(db, namespace, table) == Success(meta)
      ensures Keyed(DropExisting(db, namespace, table, meta))
    {
      DropKeepsRowInv(db, namespace, table, meta);
    }
  }

  /** Every key of every index is made from a value, after every run of statements and document deletes. */
  lemma EventsKeepKeyed(cfg: Config, db: Db, events: seq<Event>)
    requires Keyed(db)
    ensures Keyed(RunEvents(cfg, db, events))
  {
    KeyedIsStable(cfg);
    forall x, t, rid | Keyed(x) ensures Keyed(x.(rows := DeleteRow(x.rows, t, rid))) {
      DeleteKeepsRowInv(x, t, rid);
    }
    EventsKeep(cfg, x => Keyed(x), db, events);
  }

  predicate KeyFrom(row: Row, c: nat, start: Lex.Key) {
    IdKey(row, c).Some? && Lex.Le(start, IdKey(row, c).value)
  }

  /** The rows whose id has a key from `start` on. */
  function RowsFrom(rows: seq<Row>, c: nat, start: Lex.Key): seq<Row> {
    Select((row: Row) => KeyFrom(row, c, start), rows)
  }

  lemma OpenRangeRows(rows: seq<Row>, c: nat, start: Lex.Key)
    ensures RowsInRange(rows, c, start, SENTINEL) == RowsFrom(rows, c, start)
  {
    forall row: Row | row in rows ensures KeyInRange(row, c, start, SENTINEL) == KeyFrom(row, c, start) {
      if IdKey(row, c).Some? {
        BelowSentinel(row[c]);
      }
    }
    SelectAgrees((row: Row) => KeyInRange(row, c, start, SENTINEL), (row: Row) => KeyFrom(row, c, start), rows);
  }

  /** After any run of statements, failing INSERTs and document deletes, a range of an index that is given
      no end holds every key from its start on, and fetches every row of the table with such a key, once. */
  lemma OpenRangeAfterRuns(cfg: Config, catalog: CatalogState, events: seq<Event>, t: TableId, start: Lex.Key)
    requires Consistent(catalog) && (t, ID) in RunEvents(cfg, NewSession(catalog), events).indexes
    ensures
      var db := RunEvents(cfg, NewSession(catalog), events);
      var index := db.indexes[(t, ID)];
      && t in db.catalog.byId && ColumnIndex(db.catalog.byId[t].schema, ID).Some?
      && KeysInRange(index, start, SENTINEL) == (set k | k in index && Lex.Le(start, k))
      && multiset(Fetch(db.rows.data, t, RangeIds(index, start, SENTINEL)))
         == multiset(RowsFrom(TableRows(db.rows, t), ColumnIndex(db.catalog.byId[t].schema, ID).value, start))
  {
    var db := RunEvents(cfg, NewSession(catalog), events);
    EmptySessionRowInv(catalog);
    EventsKeepKeyed(cfg, NewSession(catalog), events);
    assert TableIndexAgrees(db, t);
    var index, c := db.indexes[(t, ID)], ColumnIndex(db.catalog.byId[t].schema, ID).value;
    OpenRangeMissesNone(index, start);
    RangeLookupRows(index, db.rows, t, c, start, SENTINEL);
    OpenRangeRows(TableRows(db.rows, t), c, start);
  }
}
