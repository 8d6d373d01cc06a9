/** What every statement keeps: fresh identifiers, an index that agrees with the rows, and chunks and
    buffer that together hold the published rows in order. */
module Invariants {
  import opened Aggregates
  import opened BTreeIndexes
  import opened Catalogs
  import opened Columnar
  import opened Engine
  import opened IndexKeys
  import opened Plans
  import opened Schemas
  import opened Seqs
  import opened TableStores
  import opened Values
  import Lex

  /** Nothing stored belongs to a table id that is still to be given out. */
  ghost predicate TableIdsGivenOut(db: Db) {
    var next := db.catalog.nextTable;
    && (forall k :: k in db.rows.data ==> k.0 < next)
    && (forall t :: t in db.columnar.chunks ==> t < next)
    && (forall t :: t in db.buffer ==> t < next)
    && (forall k :: k in db.indexes ==> k.0 < next)
  }

  /** The key under which a row is found in an index on column `c`. */
  function IdKey(row: Row, c: nat): Option<Lex.Key> {
    if c < |row| && FromValue(row[c]).Success? then Some(FromValue(row[c]).value) else None
  }

  /** The postings of a key: ascending, given out, and among stored rows exactly those with the key.
      Ids of deleted rows may linger. */
  ghost predicate PostingsAgree(ids: seq<RowId>, rows: RowState, t: TableId, c: nat, key: Lex.Key) {
    && Ascending(ids)
    && (forall rid :: rid in ids ==> rid < rows.next)
    && (forall rid :: (t, rid) in rows.data ==> (rid in ids <==> IdKey(rows.data[(t, rid)], c) == Some(key)))
  }

  ghost predicate IndexAgrees(index: IndexMap, rows: RowState, t: TableId, c: nat) {
    forall key :: PostingsAgree(Postings(index, key), rows, t, c, key)
  }

  ghost predicate TableIndexAgrees(db: Db, t: TableId) {
    && t in db.catalog.byId && ColumnIndex(db.catalog.byId[t].schema, ID).Some?
    && (t, ID) in db.indexes
    && IndexAgrees(db.indexes[(t, ID)], db.rows, t, ColumnIndex(db.catalog.byId[t].schema, ID).value)
  }

  ghost predicate IndexesAgree(db: Db) {
    forall k :: k in db.indexes ==> k.1 == ID && TableIndexAgrees(db, k.0)
  }

  /** The part of the invariant that does not concern columns. */
  ghost predicate RowInv(db: Db) {
    Consistent(db.catalog) && IdsGivenOut(db.rows) && TableIdsGivenOut(db) && IndexesAgree(db)
  }

  // ----- rows and columns

  /** The indexed column of a table, if it has an index. */
  function IndexedColumn(db: Db, t: TableId): Option<nat> {
    if (t, ID) in db.indexes && t in db.catalog.byId then ColumnIndex(db.catalog.byId[t].schema, ID) else None
  }

  /** A row that its INSERT carried on to the columns: its cell under the index, if any, has a key. */
  predicate Publishable(c: Option<nat>, row: Row) {
    c.Some? && c.value < |row| ==> FromValue(row[c.value]).Success?
  }

  function PublishedRows(c: Option<nat>, rows: seq<Row>): seq<Row> {
    Select((row: Row) => Publishable(c, row), rows)
  }

  function Published(db: Db, t: TableId): seq<Row> {
    PublishedRows(IndexedColumn(db, t), TableRows(db.rows, t))
  }

  /** The chunks hold the segments, the segments and then the buffer are the published rows in order,
      every segment has between 1 and `size` rows, and the buffer has fewer. */
  ghost predicate Covers(size: nat, schema: Schema, chunks: seq<ColumnarChunk>, buffer: seq<Row>, published: seq<Row>,
                         segments: seq<seq<Row>>) {
    && HoldsSegments(schema, chunks, segments)
    && Concat(segments) + buffer == published
    && (forall s :: s in segments ==> 1 <= |s| <= size)
    && |buffer| < size
  }

  ghost predicate Covered(size: nat, schema: Schema, chunks: seq<ColumnarChunk>, buffer: seq<Row>,
                          published: seq<Row>)
  {
    exists segments :: Covers(size, schema, chunks, buffer, published, segments)
  }

  ghost predicate TableCovered(cfg: Config, db: Db, t: TableId)
    requires t in db.catalog.byId
  {
    Covered(cfg.chunkSize, db.catalog.byId[t].schema, ChunksOf(db.columnar, t), BufferOf(db, t), Published(db, t))
  }

  ghost predicate ColumnsAgree(cfg: Config, db: Db) {
    forall t :: t in db.catalog.byId ==> TableCovered(cfg, db, t)
  }

  ghost predicate Inv(cfg: Config, db: Db) {
    RowInv(db) && ColumnsAgree(cfg, db)
  }

  // ----- indexes

  lemma IndexFrame(index: IndexMap, rows: RowState, rows': RowState, t: TableId, c: nat)
    requires IndexAgrees(index, rows, t, c) && rows.next <= rows'.next
    requires forall r :: (t, r) in rows'.data ==> (t, r) in rows.data && rows'.data[(t, r)] == rows.data[(t, r)]
    ensures IndexAgrees(index, rows', t, c)
  {
    forall key ensures PostingsAgree(Postings(index, key), rows', t, c, key) {
      assert PostingsAgree(Postings(index, key), rows, t, c, key);
    }
  }

  /** Storing a row and adding its posting, if it has a key, keeps the index in agreement. */
  lemma IndexInsert(index: IndexMap, rows: RowState, t: TableId, c: nat, row: Row)
    requires IndexAgrees(index, rows, t, c) && IdsGivenOut(rows)
    ensures
      var index' := match IdKey(row, c) { case Some(key) => AddPosting(index, key, rows.next) case None => index };
      IndexAgrees(index', InsertRow(rows, t, row), t, c)
  {
    var rows' := InsertRow(rows, t, row);
    var index' := match IdKey(row, c) { case Some(key) => AddPosting(index, key, rows.next) case None => index };
    forall key ensures PostingsAgree(Postings(index', key), rows', t, c, key) {
      var ids := Postings(index, key);
      assert PostingsAgree(ids, rows, t, c, key);
      if IdKey(row, c) == Some(key) {
        AscendingSnoc(ids, rows.next);
        assert Postings(index', key) == ids + [rows.next];
      } else {
        assert Postings(index', key) == ids;
      }
    }
  }

  lemma EmptyIndexAgrees(rows: RowState, t: TableId, c: nat)
    requires forall k :: k in rows.data ==> k.0 != t
    ensures IndexAgrees(map[], rows, t, c)
  {
    forall key ensures PostingsAgree(Postings(map[], key), rows, t, c, key) {
    }
  }

  // ----- columns

  lemma CoversOneMore(size: nat, schema: Schema, chunks: seq<ColumnarChunk>, buffer: seq<Row>, published: seq<Row>,
                      segments: seq<seq<Row>>, chunk: ColumnarChunk, batch: seq<Row>)
    requires Covers(size, schema, chunks, buffer, published, segments)
    requires HoldsBatch(schema, chunk, batch) && 1 <= |batch| <= size
    ensures Covers(size, schema, chunks + [chunk], [], Concat(segments) + batch, segments + [batch])
  {
    HoldsOneMore(schema, chunks, segments, chunk, batch);
    Snoc(segments, batch);
    assert Concat(segments) + batch + [] == Concat(segments) + batch;
  }

  lemma CoveredAfterFlush(size: nat, schema: Schema, chunks: seq<ColumnarChunk>, buffer: seq<Row>, published: seq<Row>,
                          chunk: ColumnarChunk)
    requires Covered(size, schema, chunks, buffer, published) && buffer != [] && HoldsBatch(schema, chunk, buffer)
    ensures Covered(size, schema, chunks + [chunk], [], published)
  {
    var segments :| Covers(size, schema, chunks, buffer, published, segments);
    CoversOneMore(size, schema, chunks, buffer, published, segments, chunk, buffer);
  }

  lemma CoveredAfterBuffering(size: nat, schema: Schema, chunks: seq<ColumnarChunk>, buffer: seq<Row>,
                              published: seq<Row>,
                              row: Row)
    requires Covered(size, schema, chunks, buffer, published) && |buffer| + 1 < size
    ensures Covered(size, schema, chunks, buffer + [row], published + [row])
  {
    var segments :| Covers(size, schema, chunks, buffer, published, segments);
    ConcatAssociates(Concat(segments), buffer, [row]);
    assert Covers(size, schema, chunks, buffer + [row], published + [row], segments);
  }

  lemma CoveredAfterFilling(size: nat, schema: Schema, chunks: seq<ColumnarChunk>, buffer: seq<Row>,
                            published: seq<Row>,
                            row: Row, chunk: ColumnarChunk)
    requires Covered(size, schema, chunks, buffer, published) && |buffer| + 1 >= size
    requires HoldsBatch(schema, chunk, buffer + [row])
    ensures Covered(size, schema, chunks + [chunk], [], published + [row])
  {
    var segments :| Covers(size, schema, chunks, buffer, published, segments);
    CoversOneMore(size, schema, chunks, buffer, published, segments, chunk, buffer + [row]);
    ConcatAssociates(Concat(segments), buffer, [row]);
  }

  lemma FlushCovered(cfg: Config, db: Db, t: TableId, schema: Schema, published: seq<Row>)
    requires Covered(cfg.chunkSize, schema, ChunksOf(db.columnar, t), BufferOf(db, t), published)
    ensures
      var db' := FlushBuffer(db, t, schema);
      && Covered(cfg.chunkSize, schema, ChunksOf(db'.columnar, t), BufferOf(db', t), published)
      && BufferOf(db', t) == []
  {
    var buffer := BufferOf(db, t);
    if buffer != [] {
      var chunk := NewChunk(db.columnar.nextChunkId, Transpose(schema, buffer));
      assert HoldsBatch(schema, chunk, buffer);
      CoveredAfterFlush(cfg.chunkSize, schema, ChunksOf(db.columnar, t), buffer, published, chunk);
    }
  }

  lemma PushCovered(cfg: Config, db: Db, t: TableId, schema: Schema, published: seq<Row>, row: Row)
    requires Covered(cfg.chunkSize, schema, ChunksOf(db.columnar, t), BufferOf(db, t), published)
    ensures
      var db' := PushRow(cfg, db, t, schema, row);
      Covered(cfg.chunkSize, schema, ChunksOf(db'.columnar, t), BufferOf(db', t), published + [row])
  {
    var buffer := BufferOf(db, t);
    if |buffer| + 1 < cfg.chunkSize {
      CoveredAfterBuffering(cfg.chunkSize, schema, ChunksOf(db.columnar, t), buffer, published, row);
    } else {
      var chunk := NewChunk(db.columnar.nextChunkId, Transpose(schema, buffer + [row]));
      assert HoldsBatch(schema, chunk, buffer + [row]);
      CoveredAfterFilling(cfg.chunkSize, schema, ChunksOf(db.columnar, t), buffer, published, row, chunk);
    }
  }

  /** Nothing of table `t` differs between two sessions. */
  ghost predicate SameTable(db: Db, db': Db, t: TableId) {
    && TableRows(db'.rows, t) == TableRows(db.rows, t)
    && ChunksOf(db'.columnar, t) == ChunksOf(db.columnar, t)
    && BufferOf(db', t) == BufferOf(db, t)
    && ((t, ID) in db'.indexes <==> (t, ID) in db.indexes)
    && ((t, ID) in db.indexes ==> db'.indexes[(t, ID)] == db.indexes[(t, ID)])
  }

  lemma CoveredFrame(cfg: Config, db: Db, db': Db, t: TableId)
    requires SameTable(db, db', t)
    requires t in db.catalog.byId && t in db'.catalog.byId && db'.catalog.byId[t] == db.catalog.byId[t]
    requires TableCovered(cfg, db, t)
    ensures TableCovered(cfg, db', t)
  {
  }

  // ----- flushing

  lemma FlushIsLocal(db: Db, t: TableId, schema: Schema)
    ensures
      var db' := FlushBuffer(db, t, schema);
      && db'.catalog == db.catalog && db'.rows == db.rows && db'.indexes == db.indexes
      && db'.columnar.chunks.Keys <= db.columnar.chunks.Keys + {t} && db'.buffer.Keys == db.buffer.Keys
      && forall u :: u != t ==> SameTable(db, db', u)
  {
  }

  lemma IndexesFrame(db: Db, db': Db)
    requires IndexesAgree(db)
    requires db'.catalog == db.catalog && db'.rows == db.rows && db'.indexes == db.indexes
    ensures IndexesAgree(db')
  {
    forall k | k in db'.indexes ensures k.1 == ID && TableIndexAgrees(db', k.0) {
      assert TableIndexAgrees(db, k.0);
    }
  }

  lemma FlushKeepsRowInv(db: Db, t: TableId, schema: Schema)
    requires RowInv(db) && t in db.catalog.byId
    ensures RowInv(FlushBuffer(db, t, schema))
  {
    FlushIsLocal(db, t, schema);
    IndexesFrame(db, FlushBuffer(db, t, schema));
  }

  /** A flush moves the buffer of one table into a chunk and changes nothing else. */
  lemma FlushKeepsColumns(cfg: Config, db: Db, t: TableId)
    requires ColumnsAgree(cfg, db) && t in db.catalog.byId
    ensures
      var db' := FlushBuffer(db, t, db.catalog.byId[t].schema);
      && ColumnsAgree(cfg, db') && BufferOf(db', t) == []
      && db'.catalog == db.catalog && db'.rows == db.rows && db'.indexes == db.indexes
      && forall u :: u != t ==> SameTable(db, db', u)
  {
    var schema := db.catalog.byId[t].schema;
    var db' := FlushBuffer(db, t, schema);
    FlushIsLocal(db, t, schema);
    assert TableCovered(cfg, db, t);
    FlushCovered(cfg, db, t, schema, Published(db, t));
    forall u | u in db'.catalog.byId ensures TableCovered(cfg, db', u) {
      if u != t {
        CoveredFrame(cfg, db, db', u);
      }
    }
  }

  // ----- INSERT

  ghost predicate Known(db: Db, meta: TableMeta) {
    meta.id in db.catalog.byId && db.catalog.byId[meta.id] == meta
  }

  lemma IdCellIsIndexed(db: Db, meta: TableMeta, row: Row)
    requires Known(db, meta)
    ensures IdCell(db, meta, row) ==
      match IndexedColumn(db, meta.id) { case Some(c) => Cell(row, c) case None => None }
  {
  }

  /** The indexes after a row, whether or not its cell could be indexed. */
  function IndexesAfter(db: Db, meta: TableMeta, row: Row): map<(TableId, string), IndexMap> {
    match IndexRow(db, meta, row)
    case Success(indexes) => indexes
    case Failure(_) => db.indexes
  }

  lemma IndexesAfterShape(db: Db, meta: TableMeta, row: Row)
    requires Known(db, meta)
    ensures
      var after := IndexesAfter(db, meta, row);
      && after.Keys == db.indexes.Keys
      && (forall k :: k in db.indexes && k != (meta.id, ID) ==> after[k] == db.indexes[k])
      && (IndexedColumn(db, meta.id).Some? ==>
            after[(meta.id, ID)] == match IdKey(row, IndexedColumn(db, meta.id).value) {
              case Some(key) => AddPosting(db.indexes[(meta.id, ID)], key, db.rows.next)
              case None => db.indexes[(meta.id, ID)]
            })
  {
    IdCellIsIndexed(db, meta, row);
  }

  lemma IndexesAfterInsert(db: Db, db': Db, meta: TableMeta, row: Row)
    requires IndexesAgree(db) && IdsGivenOut(db.rows) && Known(db, meta)
    requires db'.catalog == db.catalog && db'.rows == InsertRow(db.rows, meta.id, row)
    requires db'.indexes == IndexesAfter(db, meta, row)
    ensures IndexesAgree(db')
  {
    IndexesAfterShape(db, meta, row);
    forall k | k in db'.indexes ensures k.1 == ID && TableIndexAgrees(db', k.0) {
      assert TableIndexAgrees(db, k.0);
      var c := ColumnIndex(db.catalog.byId[k.0].schema, ID).value;
      if k.0 == meta.id {
        IndexInsert(db.indexes[k], db.rows, k.0, c, row);
      } else {
        IndexFrame(db.indexes[k], db.rows, db'.rows, k.0, c);
      }
    }
  }

  lemma InsertIsLocal(cfg: Config, db: Db, meta: TableMeta, row: Row)
    requires Known(db, meta) && IdsGivenOut(db.rows)
    ensures
      var db' := InsertOne(cfg, db, meta, row).0;
      var t := meta.id;
      && db'.catalog == db.catalog && db'.rows == InsertRow(db.rows, t, row)
      && db'.indexes == IndexesAfter(db, meta, row)
      && db'.columnar.chunks.Keys <= db.columnar.chunks.Keys + {t} && db'.buffer.Keys <= db.buffer.Keys + {t}
      && forall u :: u != t ==>
           ChunksOf(db'.columnar, u) == ChunksOf(db.columnar, u) && BufferOf(db', u) == BufferOf(db, u)
  {
  }

  lemma InsertKeepsRowInv(cfg: Config, db: Db, meta: TableMeta, row: Row)
    requires RowInv(db) && Known(db, meta)
    ensures RowInv(InsertOne(cfg, db, meta, row).0)
  {
    var db' := InsertOne(cfg, db, meta, row).0;
    InsertIsLocal(cfg, db, meta, row);
    IndexesAfterInsert(db, db', meta, row);
    InsertKeepsIds(db, db', meta, row);
  }

  lemma InsertKeepsIds(db: Db, db': Db, meta: TableMeta, row: Row)
    requires Consistent(db.catalog) && IdsGivenOut(db.rows) && TableIdsGivenOut(db) && Known(db, meta)
    requires db'.catalog == db.catalog && db'.rows == InsertRow(db.rows, meta.id, row)
    requires db'.indexes.Keys <= db.indexes.Keys + {(meta.id, ID)}
    requires db'.columnar.chunks.Keys <= db.columnar.chunks.Keys + {meta.id}
    requires db'.buffer.Keys <= db.buffer.Keys + {meta.id}
    ensures IdsGivenOut(db'.rows) && TableIdsGivenOut(db')
  {
  }

  /** The outcome of an INSERT of one row for its own table. */
  lemma InsertPublishes(cfg: Config, db: Db, meta: TableMeta, row: Row)
    requires Known(db, meta) && IdsGivenOut(db.rows) && TableCovered(cfg, db, meta.id)
    ensures
      var (db', error) := InsertOne(cfg, db, meta, row);
      && Known(db', meta) && TableCovered(cfg, db', meta.id)
      && (error.None? <==> Publishable(IndexedColumn(db, meta.id), row))
  {
    var (db', error) := InsertOne(cfg, db, meta, row);
    var t, c := meta.id, IndexedColumn(db, meta.id);
    InsertIsLocal(cfg, db, meta, row);
    InsertAppends(db.rows, t, row);
    IdCellIsIndexed(db, meta, row);
    IndexesAfterShape(db, meta, row);
    PublishedAfter(db, db', meta, row);
    if error.None? {
      var indexed := db.(rows := db'.rows, indexes := db'.indexes);
      assert db' == PushRow(cfg, indexed, t, meta.schema, row);
      PushCovered(cfg, indexed, t, meta.schema, Published(db, t), row);
    }
  }

  lemma PublishedAfter(db: Db, db': Db, meta: TableMeta, row: Row)
    requires db'.catalog == db.catalog && db'.indexes.Keys == db.indexes.Keys
    requires TableRows(db'.rows, meta.id) == TableRows(db.rows, meta.id) + [row]
    ensures
      var before := Published(db, meta.id);
      Published(db', meta.id) == if Publishable(IndexedColumn(db, meta.id), row) then before + [row] else before
  {
    Snoc(TableRows(db.rows, meta.id), row);
  }

  lemma InsertLeavesOthers(cfg: Config, db: Db, meta: TableMeta, row: Row)
    requires Known(db, meta) && IdsGivenOut(db.rows)
    ensures forall u :: u != meta.id ==> SameTable(db, InsertOne(cfg, db, meta, row).0, u)
  {
    InsertIsLocal(cfg, db, meta, row);
    InsertAppends(db.rows, meta.id, row);
    IndexesAfterShape(db, meta, row);
  }

  lemma InsertKeepsColumns(cfg: Config, db: Db, meta: TableMeta, row: Row)
    requires ColumnsAgree(cfg, db) && Known(db, meta) && IdsGivenOut(db.rows)
    ensures ColumnsAgree(cfg, InsertOne(cfg, db, meta, row).0)
  {
    var db' := InsertOne(cfg, db, meta, row).0;
    InsertIsLocal(cfg, db, meta, row);
    InsertLeavesOthers(cfg, db, meta, row);
    assert TableCovered(cfg, db, meta.id);
    InsertPublishes(cfg, db, meta, row);
    forall u | u in db'.catalog.byId ensures TableCovered(cfg, db', u) {
      if u != meta.id {
        CoveredFrame(cfg, db, db', u);
      }
    }
  }

  /** An INSERT of one row appends it to its table and keeps the invariant; it succeeds exactly when the
      id can be indexed, and otherwise the row is stored all the same. Other tables do not change. */
  lemma InsertKeepsInv(cfg: Config, db: Db, meta: TableMeta, row: Row)
    requires Inv(cfg, db) && Known(db, meta)
    ensures
      var (db', error) := InsertOne(cfg, db, meta, row);
      && Inv(cfg, db') && db'.catalog == db.catalog
      && TableRows(db'.rows, meta.id) == TableRows(db.rows, meta.id) + [row]
      && (error.None? <==> Publishable(IndexedColumn(db, meta.id), row))
      && (forall u :: u != meta.id ==> SameTable(db, db', u))
  {
    InsertKeepsRowInv(cfg, db, meta, row);
    InsertKeepsColumns(cfg, db, meta, row);
    InsertIsLocal(cfg, db, meta, row);
    InsertAppends(db.rows, meta.id, row);
    InsertLeavesOthers(cfg, db, meta, row);
    assert TableCovered(cfg, db, meta.id);
    InsertPublishes(cfg, db, meta, row);
  }

  // ----- CREATE and DROP

  lemma CreateKeepsRowInv(db: Db, namespace: Option<string>, table: string, columns: seq<(string, ColumnType)>)
    requires RowInv(db)
    ensures RowInv(CreateNew(db, namespace, table, columns))
  {
    var db' := CreateNew(db, namespace, table, columns);
    var (ns, schema) := (NamespaceOf(namespace), TableSchema(columns));
    var t := db.catalog.nextTable;
    CreateEnters(db.catalog, ns, table, schema, None);
    forall k | k in db'.indexes ensures k.1 == ID && TableIndexAgrees(db', k.0) {
      if k.0 == t {
        EmptyIndexAgrees(db.rows, t, ColumnIndex(schema, ID).value);
      } else {
        assert TableIndexAgrees(db, k.0);
      }
    }
  }

  lemma CreateIsLocal(db: Db, namespace: Option<string>, table: string, columns: seq<(string, ColumnType)>)
    requires TableIdsGivenOut(db)
    ensures
      var db' := CreateNew(db, namespace, table, columns);
      var t := db.catalog.nextTable;
      && TableRows(db'.rows, t) == [] && ChunksOf(db'.columnar, t) == [] && BufferOf(db', t) == []
      && ((t, ID) in db'.indexes <==> ColumnIndex(TableSchema(columns), ID).Some?)
      && ((t, ID) in db'.indexes ==> db'.indexes[(t, ID)] == map[])
      && (forall u :: u != t ==> SameTable(db, db', u))
  {
    UnusedTableIsEmpty(db.rows, db.catalog.nextTable);
  }

  lemma NothingCovered(size: nat, schema: Schema)
    requires size > 0
    ensures Covered(size, schema, [], [], [])
  {
    assert Covers(size, schema, [], [], [], []);
  }

  /** A CREATE, even over a name in use or one that was dropped, makes the name mean a table that is
      empty in every store; the tables there were keep all their data. */
  lemma CreateKeepsInv(cfg: Config, db: Db, namespace: Option<string>, table: string,
                       columns: seq<(string, ColumnType)>)
    requires cfg.chunkSize > 0 && Inv(cfg, db)
    ensures
      var db' := CreateNew(db, namespace, table, columns);
      var t := db.catalog.nextTable;
      && Inv(cfg, db')
      && FindTable(db', namespace, table).Success? && FindTable(db', namespace, table).value.id == t
      && FindTable(db', namespace, table).value.schema == TableSchema(columns)
      && TableRows(db'.rows, t) == [] && ChunksOf(db'.columnar, t) == [] && BufferOf(db', t) == []
      && ((t, ID) in db'.indexes <==> ColumnIndex(TableSchema(columns), ID).Some?)
      && ((t, ID) in db'.indexes ==> db'.indexes[(t, ID)] == map[])
      && (forall u :: u != t ==> SameTable(db, db', u))
  {
    var db' := CreateNew(db, namespace, table, columns);
    var t := db.catalog.nextTable;
    CreateKeepsRowInv(db, namespace, table, columns);
    CreateIsFresh(db.catalog, NamespaceOf(namespace), table, TableSchema(columns), None);
    CreateIsLocal(db, namespace, table, columns);
    NothingCovered(cfg.chunkSize, TableSchema(columns));
    forall u | u in db'.catalog.byId ensures TableCovered(cfg, db', u) {
      if u != t {
        CoveredFrame(cfg, db, db', u);
      }
    }
  }

  lemma DropKeepsRowInv(db: Db, namespace: Option<string>, table: string, meta: TableMeta)
    requires RowInv(db) && FindTable(db, namespace, table) == Success(meta)
    ensures RowInv(DropExisting(db, namespace, table, meta))
  {
    var db' := DropExisting(db, namespace, table, meta);
    DropRemovesOne(db.catalog, NamespaceOf(namespace), table);
    DropEmpties(db.rows, meta.id);
    forall k | k in db'.indexes ensures k.1 == ID && TableIndexAgrees(db', k.0) {
      assert TableIndexAgrees(db, k.0);
      IndexFrame(db.indexes[k], db.rows, db'.rows, k.0, ColumnIndex(db.catalog.byId[k.0].schema, ID).value);
    }
  }

  lemma DropIsLocal(db: Db, namespace: Option<string>, table: string, meta: TableMeta)
    requires IdsGivenOut(db.rows)
    ensures
      var db' := DropExisting(db, namespace, table, meta);
      && TableRows(db'.rows, meta.id) == [] && ChunksOf(db'.columnar, meta.id) == []
      && (meta.id, ID) !in db'.indexes && BufferOf(db', meta.id) == BufferOf(db, meta.id)
      && (forall u :: u != meta.id ==> SameTable(db, db', u))
  {
    DropEmpties(db.rows, meta.id);
  }

  /** A DROP takes away the rows, chunks and index of one table and changes no other table, although
      the rows it had in the buffer stay there. */
  lemma DropKeepsInv(cfg: Config, db: Db, namespace: Option<string>, table: string, meta: TableMeta)
    requires Inv(cfg, db) && FindTable(db, namespace, table) == Success(meta)
    ensures
      var db' := DropExisting(db, namespace, table, meta);
      && Inv(cfg, db') && FindTable(db', namespace, table).Failure?
      && TableRows(db'.rows, meta.id) == [] && ChunksOf(db'.columnar, meta.id) == []
      && (meta.id, ID) !in db'.indexes && BufferOf(db', meta.id) == BufferOf(db, meta.id)
      && (forall u :: u != meta.id ==> SameTable(db, db', u))
  {
    var db' := DropExisting(db, namespace, table, meta);
    DropKeepsRowInv(db, namespace, table, meta);
    DropRemovesOne(db.catalog, NamespaceOf(namespace), table);
    DropIsLocal(db, namespace, table, meta);
    forall u | u in db'.catalog.byId ensures TableCovered(cfg, db', u) {
      CoveredFrame(cfg, db, db', u);
    }
  }

  // ----- every plan

  /** A property of sessions that no single change takes away. */
  ghost predicate Stable(cfg: Config, holds: Db -> bool) {
    && (forall db :: holds(db) ==> Consistent(db.catalog))
    && (forall db, t :: holds(db) && t in db.catalog.byId ==> holds(FlushBuffer(db, t, db.catalog.byId[t].schema)))
    && (forall db, meta, row :: holds(db) && Known(db, meta) ==> holds(InsertOne(cfg, db, meta, row).0))
    && (forall db, namespace, table, columns :: holds(db) ==> holds(CreateNew(db, namespace, table, columns)))
    && (forall db, namespace, table, meta :: holds(db) && FindTable(db, namespace, table) == Success(meta) ==>
          holds(DropExisting(db, namespace, table, meta)))
  }

  lemma FoundIsKnown(db: Db, namespace: Option<string>, table: string)
    requires Consistent(db.catalog) && FindTable(db, namespace, table).Success?
    ensures Known(db, FindTable(db, namespace, table).value)
  {
  }

  lemma {:induction false} ScannedIsKnown(db: Db, node: PlanNode)
    requires Consistent(db.catalog) && ScanMeta(db, node).Success?
    ensures Known(db, ScanMeta(db, node).value)
  {
    match node
    case Scan(table, namespace) => FoundIsKnown(db, namespace, table);
    case Filter(input, _) => ScannedIsKnown(db, input);
    case Project(input, _) => ScannedIsKnown(db, input);
    case Limit(input, _, _) => ScannedIsKnown(db, input);
    case Aggregate(input, _) => ScannedIsKnown(db, input);
    case GroupBy(input, _, _) => ScannedIsKnown(db, input);
    case OrderBy(input, _) => ScannedIsKnown(db, input);
    case _ =>
  }

  lemma {:induction false} InsertFromKeeps(cfg: Config, holds: Db -> bool, db: Db, meta: TableMeta, values: seq<Row>,
                                           count: nat)
    requires Stable(cfg, holds) && holds(db) && Known(db, meta)
    ensures holds(InsertFrom(cfg, db, meta, values, count).0)
    decreases |values|
  {
    if values != [] {
      var (db', error) := InsertOne(cfg, db, meta, values[0]);
      if error.None? {
        InsertFromKeeps(cfg, holds, db', meta, values[1..], count + 1);
      }
    }
  }

  lemma InsertKeeps(cfg: Config, holds: Db -> bool, db: Db, plan: PlanNode)
    requires Stable(cfg, holds) && holds(db) && plan.Insert?
    ensures holds(Exec(cfg, db, plan).0)
  {
    if FindTable(db, plan.namespace, plan.table).Success? {
      FoundIsKnown(db, plan.namespace, plan.table);
      InsertFromKeeps(cfg, holds, db, FindTable(db, plan.namespace, plan.table).value, plan.values, 0);
    }
  }

  lemma StatementKeeps(cfg: Config, holds: Db -> bool, db: Db, plan: PlanNode)
    requires Stable(cfg, holds) && holds(db) && (plan.Insert? || plan.CreateTable? || plan.DropTable?)
    ensures holds(Exec(cfg, db, plan).0)
  {
    if plan.Insert? {
      InsertKeeps(cfg, holds, db, plan);
    }
  }

  /** Whatever no single change takes away, no plan takes away, failing or not. */
  lemma {:induction false} ExecKeeps(cfg: Config, holds: Db -> bool, db: Db, plan: PlanNode)
    requires Stable(cfg, holds) && holds(db)
    ensures holds(Exec(cfg, db, plan).0)
    decreases plan, 0
  {
    match plan
    case Scan(_, _) =>
    case Filter(input, _) => ExecKeeps(cfg, holds, db, input);
    case Aggregate(input, aggs) =>
      if ScanMeta(db, input).Success? {
        var meta := ScanMeta(db, input).value;
        ScannedIsKnown(db, input);
        AggregateInputKeeps(cfg, holds, FlushBuffer(db, meta.id, meta.schema), input, meta.schema, aggs);
      }
    case Insert(_, _, _) => StatementKeeps(cfg, holds, db, plan);
    case CreateTable(_, _, _) => StatementKeeps(cfg, holds, db, plan);
    case DropTable(_, _) => StatementKeeps(cfg, holds, db, plan);
    case _ => ExecKeeps(cfg, holds, db, plan.input);
  }

  lemma {:induction false} AggregateInputKeeps(cfg: Config, holds: Db -> bool, db: Db, input: PlanNode,
                                               schema: Schema, aggs: seq<AggExpr>)
    requires Stable(cfg, holds) && holds(db)
    ensures holds(AggregateInput(cfg, db, input, schema, aggs).0)
    decreases input, |aggs| + 1
  {
    if aggs != [] {
      ExecKeeps(cfg, holds, db, input);
      AggregateInputKeeps(cfg, holds, Exec(cfg, db, input).0, input, schema, aggs[1..]);
    }
  }

  lemma RowInvIsStable(cfg: Config)
    ensures Stable(cfg, db => RowInv(db))
  {
    forall db, t | RowInv(db) && t in db.catalog.byId ensures RowInv(FlushBuffer(db, t, db.catalog.byId[t].schema)) {
      FlushKeepsRowInv(db, t, db.catalog.byId[t].schema);
    }
    forall db, meta, row | RowInv(db) && Known(db, meta) ensures RowInv(InsertOne(cfg, db, meta, row).0) {
      InsertKeepsRowInv(cfg, db, meta, row);
    }
    forall db, namespace, table, columns | RowInv(db) ensures RowInv(CreateNew(db, namespace, table, columns)) {
      CreateKeepsRowInv(db, namespace, table, columns);
    }
    forall db, namespace, table, meta | RowInv(db) && FindTable(db, namespace, table) == Success(meta)
      ensures RowInv(DropExisting(db, namespace, table, meta))
    {
      DropKeepsRowInv(db, namespace, table, meta);
    }
  }

  lemma InvIsStable(cfg: Config)
    requires cfg.chunkSize > 0
    ensures Stable(cfg, db => Inv(cfg, db))
  {
    forall db, t | Inv(cfg, db) && t in db.catalog.byId
      ensures Inv(cfg, FlushBuffer(db, t, db.catalog.byId[t].schema))
    {
      FlushKeepsRowInv(db, t, db.catalog.byId[t].schema);
      FlushKeepsColumns(cfg, db, t);
    }
    forall db, meta, row | Inv(cfg, db) && Known(db, meta) ensures Inv(cfg, InsertOne(cfg, db, meta, row).0) {
      InsertKeepsInv(cfg, db, meta, row);
    }
    forall db, namespace, table, columns | Inv(cfg, db) ensures Inv(cfg, CreateNew(db, namespace, table, columns)) {
      CreateKeepsInv(cfg, db, namespace, table, columns);
    }
    forall db, namespace, table, meta | Inv(cfg, db) && FindTable(db, namespace, table) == Success(meta)
      ensures Inv(cfg, DropExisting(db, namespace, table, meta))
    {
      DropKeepsInv(cfg, db, namespace, table, meta);
    }
  }

  /** Every plan whatever, failing or not, keeps the invariant. */
  lemma ExecKeepsInv(cfg: Config, db: Db, plan: PlanNode)
    requires cfg.chunkSize > 0 && Inv(cfg, db)
    ensures Inv(cfg, Exec(cfg, db, plan).0)
  {
    InvIsStable(cfg);
    ExecKeeps(cfg, db => Inv(cfg, db), db, plan);
  }

  /** A new session satisfies the invariant, whether its catalog is empty or was just loaded. */
  lemma NewSessionInv(cfg: Config, catalog: CatalogState)
    requires cfg.chunkSize > 0 && Consistent(catalog)
    ensures Inv(cfg, NewSession(catalog))
  {
    var db := NewSession(catalog);
    forall t | t in catalog.byId ensures TableCovered(cfg, db, t) {
      UnusedTableIsEmpty(db.rows, t);
      NothingCovered(cfg.chunkSize, catalog.byId[t].schema);
    }
  }

  /** The invariant holds after every run of statements. */
  lemma {:induction false} RunKeepsInv(cfg: Config, db: Db, plans: seq<PlanNode>)
    requires cfg.chunkSize > 0 && Inv(cfg, db)
    ensures Inv(cfg, Run(cfg, db, plans))
    decreases |plans|
  {
    if plans != [] {
      ExecKeepsInv(cfg, db, plans[0]);
      RunKeepsInv(cfg, Exec(cfg, db, plans[0]).0, plans[1..]);
    }
  }

  // ----- runs with document deletes

  /** A statement, or one row deleted behind the session's back through a document collection. */
  datatype Event = Statement(plan: PlanNode) | DocumentDelete(t: TableId, rid: RowId)

  function AfterEvent(cfg: Config, db: Db, event: Event): Db {
    match event
    case Statement(plan) => Exec(cfg, db, plan).0
    case DocumentDelete(t, rid) => db.(rows := DeleteRow(db.rows, t, rid))
  }

  function RunEvents(cfg: Config, db: Db, events: seq<Event>): Db
    decreases |events|
  {
    if events == [] then db else RunEvents(cfg, AfterEvent(cfg, db, events[0]), events[1..])
  }

  /** A property that neither a change nor a document delete takes away. */
  ghost predicate Lasting(cfg: Config, holds: Db -> bool) {
    Stable(cfg, holds) && forall db, t, rid :: holds(db) ==> holds(db.(rows := DeleteRow(db.rows, t, rid)))
  }

  /** Whatever neither takes away holds after every run of statements, failing INSERTs and document deletes. */
  lemma {:induction false} EventsKeep(cfg: Config, holds: Db -> bool, db: Db, events: seq<Event>)
    requires Lasting(cfg, holds) && holds(db)
    ensures holds(RunEvents(cfg, db, events))
    decreases |events|
  {
    if events != [] {
      if events[0].Statement? {
        ExecKeeps(cfg, holds, db, events[0].plan);
      }
      EventsKeep(cfg, holds, AfterEvent(cfg, db, events[0]), events[1..]);
    }
  }

  lemma DeleteKeepsRowInv(db: Db, t: TableId, rid: RowId)
    requires RowInv(db)
    ensures RowInv(db.(rows := DeleteRow(db.rows, t, rid)))
  {
    var db' := db.(rows := DeleteRow(db.rows, t, rid));
    forall k | k in db'.indexes ensures k.1 == ID && TableIndexAgrees(db', k.0) {
      assert TableIndexAgrees(db, k.0);
      IndexFrame(db.indexes[k], db.rows, db'.rows, k.0, ColumnIndex(db.catalog.byId[k.0].schema, ID).value);
    }
  }

  /** Indexes agree with rows after every such run. */
  lemma RunEventsKeepsRowInv(cfg: Config, db: Db, events: seq<Event>)
    requires RowInv(db)
    ensures RowInv(RunEvents(cfg, db, events))
  {
    RowInvIsStable(cfg);
    forall x, t, rid | RowInv(x) ensures RowInv(x.(rows := DeleteRow(x.rows, t, rid))) {
      DeleteKeepsRowInv(x, t, rid);
    }
    EventsKeep(cfg, x => RowInv(x), db, events);
  }
}
