/** Runs that cut the rows of a table wherever one likes: an INSERT for each piece, and a query that
    flushes it. */
module CutRuns {
  import opened Aggregates
  import opened AllChunkings
  import opened Catalogs
  import opened Columnar
  import opened Engine
  import opened Invariants
  import opened Plans
  import opened Refinement
  import opened Schemas
  import opened Seqs
  import opened TableStores
  import opened Values

  /** A table as a run has left it: its chunks hold the segments, and its buffer the rows after them. */
  ghost predicate CutTo(cfg: Config, table: string, db: Db, meta: TableMeta, schema: Schema, segments: seq<seq<Row>>,
                        buffer: seq<Row>) {
    && Inv(cfg, db) && FindTable(db, None, table) == Success(meta)
    && meta.schema == schema && IndexedColumn(db, meta.id) == ColumnIndex(schema, ID)
    && HoldsSegments(schema, ChunksOf(db.columnar, meta.id), segments) && BufferOf(db, meta.id) == buffer
    && TableRows(db.rows, meta.id) == Concat(segments) + buffer
  }

  /** The rows can be indexed, so inserting them succeeds. */
  predicate Insertable(schema: Schema, rows: seq<Row>) {
    forall row :: row in rows ==> Publishable(ColumnIndex(schema, ID), row)
  }

  /** Where the buffer ends up once `rows` are pushed to it, if they fit one chunk. */
  function AfterPushing(size: nat, segments: seq<seq<Row>>, buffer: seq<Row>): (seq<seq<Row>>, seq<Row>) {
    if |buffer| < size then (segments, buffer) else (segments + [buffer], [])
  }

  lemma InsertOneTo(cfg: Config, db: Db, meta: TableMeta, row: Row)
    requires Known(db, meta) && IndexedColumn(db, meta.id) == ColumnIndex(meta.schema, ID)
    requires Publishable(ColumnIndex(meta.schema, ID), row)
    ensures
      var (db', error) := InsertOne(cfg, db, meta, row);
      var batch := BufferOf(db, meta.id) + [row];
      var chunk := NewChunk(db.columnar.nextChunkId, Transpose(meta.schema, batch));
      && error.None?
      && BufferOf(db', meta.id) == (if |batch| < cfg.chunkSize then batch else [])
      && ChunksOf(db'.columnar, meta.id)
           == ChunksOf(db.columnar, meta.id) + (if |batch| < cfg.chunkSize then [] else [chunk])
  {
    IdCellIsIndexed(db, meta, row);
  }

  lemma TableKept(cfg: Config, table: string, db: Db, meta: TableMeta, row: Row)
    requires Inv(cfg, db) && FindTable(db, None, table) == Success(meta)
    ensures
      var db' := InsertOne(cfg, db, meta, row).0;
      && Inv(cfg, db') && FindTable(db', None, table) == Success(meta)
      && IndexedColumn(db', meta.id) == IndexedColumn(db, meta.id)
      && TableRows(db'.rows, meta.id) == TableRows(db.rows, meta.id) + [row]
  {
    FoundIsKnown(db, None, table);
    InsertKeepsInv(cfg, db, meta, row);
    InsertIsLocal(cfg, db, meta, row);
    IndexesAfterShape(db, meta, row);
  }

  lemma ColumnsMoved(cfg: Config, db: Db, meta: TableMeta, segments: seq<seq<Row>>, row: Row)
    requires Known(db, meta) && IndexedColumn(db, meta.id) == ColumnIndex(meta.schema, ID)
    requires Publishable(ColumnIndex(meta.schema, ID), row)
    requires HoldsSegments(meta.schema, ChunksOf(db.columnar, meta.id), segments)
    ensures
      var (db', error) := InsertOne(cfg, db, meta, row);
      var (segments', buffer') := AfterPushing(cfg.chunkSize, segments, BufferOf(db, meta.id) + [row]);
      && error.None? && BufferOf(db', meta.id) == buffer'
      && HoldsSegments(meta.schema, ChunksOf(db'.columnar, meta.id), segments')
  {
    InsertOneTo(cfg, db, meta, row);
    var batch := BufferOf(db, meta.id) + [row];
    var chunk := NewChunk(db.columnar.nextChunkId, Transpose(meta.schema, batch));
    assert HoldsBatch(meta.schema, chunk, batch);
    HoldsOneMore(meta.schema, ChunksOf(db.columnar, meta.id), segments, chunk, batch);
    assert ChunksOf(db.columnar, meta.id) + [] == ChunksOf(db.columnar, meta.id);
  }

  lemma Regrouped(segments: seq<seq<Row>>, buffer: seq<Row>)
    ensures Concat(segments + [buffer]) + [] == Concat(segments) + buffer
  {
    Snoc(segments, buffer);
  }

  lemma RowsRegrouped(size: nat, segments: seq<seq<Row>>, buffer: seq<Row>, row: Row)
    ensures
      var (segments', buffer') := AfterPushing(size, segments, buffer + [row]);
      (Concat(segments) + buffer) + [row] == Concat(segments') + buffer'
  {
    Regrouped(segments, buffer + [row]);
    ConcatAssociates(Concat(segments), buffer, [row]);
  }

  lemma OneRowOn(cfg: Config, table: string, db: Db, meta: TableMeta, schema: Schema, segments: seq<seq<Row>>,
                 buffer: seq<Row>, row: Row)
    requires CutTo(cfg, table, db, meta, schema, segments, buffer) && Publishable(ColumnIndex(schema, ID), row)
    ensures
      var (db', error) := InsertOne(cfg, db, meta, row);
      var (segments', buffer') := AfterPushing(cfg.chunkSize, segments, buffer + [row]);
      error.None? && CutTo(cfg, table, db', meta, schema, segments', buffer')
  {
    FoundIsKnown(db, None, table);
    TableKept(cfg, table, db, meta, row);
    ColumnsMoved(cfg, db, meta, segments, row);
    RowsRegrouped(cfg.chunkSize, segments, buffer, row);
  }

  lemma InsertStep(cfg: Config, db: Db, meta: TableMeta, values: seq<Row>, count: nat)
    requires values != [] && InsertOne(cfg, db, meta, values[0]).1.None?
    ensures InsertFrom(cfg, db, meta, values, count)
         == InsertFrom(cfg, InsertOne(cfg, db, meta, values[0]).0, meta, values[1..], count + 1)
  {
  }

  lemma FirstMoved(buffer: seq<Row>, values: seq<Row>)
    requires values != []
    ensures (buffer + [values[0]]) + values[1..] == buffer + values
    ensures |values| == 1 ==> values[1..] == [] && buffer + values == buffer + [values[0]]
  {
  }

  /** Inserting rows that fit what is left of the chunk. */
  lemma {:induction false} RowsOn(cfg: Config, table: string, db: Db, meta: TableMeta, schema: Schema,
                                  segments: seq<seq<Row>>, buffer: seq<Row>, values: seq<Row>, count: nat)
      returns (db': Db)
    requires CutTo(cfg, table, db, meta, schema, segments, buffer) && Insertable(schema, values)
    requires |buffer| < cfg.chunkSize && |buffer| + |values| <= cfg.chunkSize
    ensures db' == InsertFrom(cfg, db, meta, values, count).0
    ensures
      var (segments', buffer') := AfterPushing(cfg.chunkSize, segments, buffer + values);
      CutTo(cfg, table, db', meta, schema, segments', buffer')
    decreases |values|
  {
    if values == [] {
      assert buffer + values == buffer;
      db' := db;
    } else {
      var next := OneRowLeads(cfg, table, db, meta, schema, segments, buffer, values[0]);
      InsertStep(cfg, db, meta, values, count);
      FirstMoved(buffer, values);
      if |values| == 1 {
        NothingMore(cfg, next, meta, count + 1);
        db' := next;
      } else {
        db' := RowsOn(cfg, table, next, meta, schema, segments, buffer + [values[0]], values[1..], count + 1);
      }
    }
  }

  lemma NothingMore(cfg: Config, db: Db, meta: TableMeta, count: nat)
    ensures InsertFrom(cfg, db, meta, [], count).0 == db
  {
  }

  lemma OneRowLeads(cfg: Config, table: string, db: Db, meta: TableMeta, schema: Schema, segments: seq<seq<Row>>,
                    buffer: seq<Row>, row: Row) returns (db': Db)
    requires CutTo(cfg, table, db, meta, schema, segments, buffer) && Publishable(ColumnIndex(schema, ID), row)
    ensures InsertOne(cfg, db, meta, row) == (db', None)
    ensures
      var (segments', buffer') := AfterPushing(cfg.chunkSize, segments, buffer + [row]);
      CutTo(cfg, table, db', meta, schema, segments', buffer')
  {
    OneRowOn(cfg, table, db, meta, schema, segments, buffer, row);
    db' := InsertOne(cfg, db, meta, row).0;
  }

  /** A query with an aggregate over the table flushes what is buffered. */
  lemma Flushes(cfg: Config, db: Db, table: string, meta: TableMeta, aggs: seq<AggExpr>)
    requires FindTable(db, None, table) == Success(meta)
    ensures Exec(cfg, db, Aggregate(Scan(table, None), aggs)).0 == FlushBuffer(db, meta.id, meta.schema)
  {
    FlushIsLocal(db, meta.id, meta.schema);
    AggregateInputOfScan(cfg, FlushBuffer(db, meta.id, meta.schema), Scan(table, None), meta, aggs);
  }

  lemma FlushAdds(db: Db, t: TableId, schema: Schema, segments: seq<seq<Row>>)
    requires HoldsSegments(schema, ChunksOf(db.columnar, t), segments) && BufferOf(db, t) != []
    ensures HoldsSegments(schema, ChunksOf(FlushBuffer(db, t, schema).columnar, t), segments + [BufferOf(db, t)])
  {
    var chunk := NewChunk(db.columnar.nextChunkId, Transpose(schema, BufferOf(db, t)));
    assert HoldsBatch(schema, chunk, BufferOf(db, t));
    HoldsOneMore(schema, ChunksOf(db.columnar, t), segments, chunk, BufferOf(db, t));
  }

  lemma FlushKeeps(cfg: Config, db: Db, t: TableId)
    requires Inv(cfg, db) && t in db.catalog.byId
    ensures
      var db' := FlushBuffer(db, t, db.catalog.byId[t].schema);
      && Inv(cfg, db') && BufferOf(db', t) == []
      && db'.catalog == db.catalog && db'.rows == db.rows && db'.indexes == db.indexes
  {
    FlushKeepsRowInv(db, t, db.catalog.byId[t].schema);
    FlushKeepsColumns(cfg, db, t);
  }

  lemma FlushOn(cfg: Config, table: string, db: Db, meta: TableMeta, schema: Schema, segments: seq<seq<Row>>,
                buffer: seq<Row>) returns (db': Db)
    requires CutTo(cfg, table, db, meta, schema, segments, buffer) && buffer != []
    ensures db' == FlushBuffer(db, meta.id, schema)
    ensures CutTo(cfg, table, db', meta, schema, segments + [buffer], [])
  {
    FoundIsKnown(db, None, table);
    FlushKeeps(cfg, db, meta.id);
    FlushAdds(db, meta.id, schema, segments);
    Regrouped(segments, buffer);
    db' := FlushBuffer(db, meta.id, schema);
  }

  // ----- the runs

  function Counting(table: string): PlanNode {
    Aggregate(Scan(table, None), [CountStar])
  }

  function CutPlans(table: string, segments: seq<seq<Row>>): seq<PlanNode> {
    if segments == [] then []
    else CutPlans(table, segments[..|segments| - 1]) + [Insert(table, None, segments[|segments| - 1]), Counting(table)]
  }

  lemma {:induction false} RunThen(cfg: Config, db: Db, a: seq<PlanNode>, b: seq<PlanNode>)
    ensures Run(cfg, db, a + b) == Run(cfg, Run(cfg, db, a), b)
    decreases |a|
  {
    if a == [] {
      assert a + b == b;
    } else {
      assert (a + b)[0] == a[0] && (a + b)[1..] == a[1..] + b;
      RunThen(cfg, Exec(cfg, db, a[0]).0, a[1..], b);
    }
  }

  lemma RunPair(cfg: Config, db: Db, a: PlanNode, b: PlanNode)
    ensures Run(cfg, db, [a, b]) == Exec(cfg, Exec(cfg, db, a).0, b).0
  {
    assert [a, b][1..] == [b] && [b][1..] == [];
    assert Run(cfg, Exec(cfg, db, a).0, [b]) == Exec(cfg, Exec(cfg, db, a).0, b).0;
  }

  lemma InsertStatement(cfg: Config, db: Db, table: string, meta: TableMeta, values: seq<Row>)
    requires FindTable(db, None, table) == Success(meta)
    ensures Exec(cfg, db, Insert(table, None, values)).0 == InsertFrom(cfg, db, meta, values, 0).0
  {
  }

  lemma NothingBuffered(db: Db, t: TableId, schema: Schema)
    requires BufferOf(db, t) == []
    ensures FlushBuffer(db, t, schema) == db
  {
  }

  /** One piece inserted and flushed. */
  lemma PieceOn(cfg: Config, table: string, db: Db, meta: TableMeta, schema: Schema, segments: seq<seq<Row>>,
                piece: seq<Row>) returns (db': Db)
    requires CutTo(cfg, table, db, meta, schema, segments, [])
    requires Insertable(schema, piece) && 1 <= |piece| <= cfg.chunkSize
    ensures db' == Run(cfg, db, [Insert(table, None, piece), Counting(table)])
    ensures CutTo(cfg, table, db', meta, schema, segments + [piece], [])
  {
    InsertStatement(cfg, db, table, meta, piece);
    RunPair(cfg, db, Insert(table, None, piece), Counting(table));
    var inserted := RowsOn(cfg, table, db, meta, schema, segments, [], piece, 0);
    assert [] + piece == piece;
    Flushes(cfg, inserted, table, meta, [CountStar]);
    if |piece| < cfg.chunkSize {
      db' := FlushOn(cfg, table, inserted, meta, schema, segments, piece);
    } else {
      NothingBuffered(inserted, meta.id, schema);
      db' := inserted;
    }
  }

  lemma LastPiece(segments: seq<seq<Row>>)
    requires segments != []
    ensures segments[..|segments| - 1] + [segments[|segments| - 1]] == segments && segments[|segments| - 1] in segments
    ensures forall s :: s in segments[..|segments| - 1] ==> s in segments
  {
  }

  lemma RunLastPiece(cfg: Config, db: Db, table: string, segments: seq<seq<Row>>)
    requires segments != []
    ensures Run(cfg, db, CutPlans(table, segments))
         == Run(cfg, Run(cfg, db, CutPlans(table, segments[..|segments| - 1])),
                [Insert(table, None, segments[|segments| - 1]), Counting(table)])
  {
    RunThen(cfg, db, CutPlans(table, segments[..|segments| - 1]),
            [Insert(table, None, segments[|segments| - 1]), Counting(table)]);
  }

  lemma {:induction false} PiecesOn(cfg: Config, table: string, db: Db, meta: TableMeta, schema: Schema,
                                    segments: seq<seq<Row>>) returns (db': Db)
    requires CutTo(cfg, table, db, meta, schema, [], [])
    requires forall s :: s in segments ==> Insertable(schema, s) && 1 <= |s| <= cfg.chunkSize
    ensures db' == Run(cfg, db, CutPlans(table, segments)) && CutTo(cfg, table, db', meta, schema, segments, [])
  {
    if segments == [] {
      db' := db;
    } else {
      LastPiece(segments);
      RunLastPiece(cfg, db, table, segments);
      var one := PiecesOn(cfg, table, db, meta, schema, segments[..|segments| - 1]);
      db' := PieceOn(cfg, table, one, meta, schema, segments[..|segments| - 1], segments[|segments| - 1]);
    }
  }

  lemma CatalogEntry(cfg: Config, table: string, columns: seq<(string, ColumnType)>, start: Db)
      returns (meta: TableMeta)
    requires cfg.chunkSize > 0 && Inv(cfg, start)
    ensures
      var db := CreateNew(start, None, table, columns);
      && FindTable(db, None, table) == Success(meta) && Known(db, meta)
      && meta.id == start.catalog.nextTable && meta.schema == TableSchema(columns)
  {
    meta := NewMeta(start.catalog, NamespaceOf(None), table, TableSchema(columns), None);
    CreateIsFresh(start.catalog, NamespaceOf(None), table, TableSchema(columns), None);
  }

  lemma NothingYet(cfg: Config, table: string, db: Db, meta: TableMeta)
    requires Inv(cfg, db) && FindTable(db, None, table) == Success(meta)
    requires TableRows(db.rows, meta.id) == [] && ChunksOf(db.columnar, meta.id) == [] && BufferOf(db, meta.id) == []
    requires IndexedColumn(db, meta.id) == ColumnIndex(meta.schema, ID)
    ensures CutTo(cfg, table, db, meta, meta.schema, [], [])
  {
  }

  lemma StoresAfterCreate(table: string, columns: seq<(string, ColumnType)>, start: Db, db: Db, meta: TableMeta)
    requires TableIdsGivenOut(start) && db == CreateNew(start, None, table, columns)
    requires meta.id == start.catalog.nextTable && meta.schema == TableSchema(columns) && Known(db, meta)
    ensures TableRows(db.rows, meta.id) == [] && ChunksOf(db.columnar, meta.id) == [] && BufferOf(db, meta.id) == []
    ensures IndexedColumn(db, meta.id) == ColumnIndex(meta.schema, ID)
  {
    CreateIsLocal(start, None, table, columns);
  }

  lemma CreateStatement(cfg: Config, db: Db, table: string, columns: seq<(string, ColumnType)>)
    ensures Exec(cfg, db, CreateTable(table, None, columns)).0 == CreateNew(db, None, table, columns)
  {
  }

  lemma TableMade(cfg: Config, table: string, columns: seq<(string, ColumnType)>, start: Db)
      returns (db: Db, meta: TableMeta)
    requires cfg.chunkSize > 0 && Inv(cfg, start)
    ensures db == Exec(cfg, start, CreateTable(table, None, columns)).0
    ensures CutTo(cfg, table, db, meta, TableSchema(columns), [], [])
  {
    db := CreateNew(start, None, table, columns);
    CreateStatement(cfg, start, table, columns);
    meta := CatalogEntry(cfg, table, columns, start);
    StoresAfterCreate(table, columns, start, db, meta);
    InvAfterCreate(cfg, table, columns, start);
    NothingYet(cfg, table, db, meta);
  }

  lemma InvAfterCreate(cfg: Config, table: string, columns: seq<(string, ColumnType)>, start: Db)
    requires cfg.chunkSize > 0 && Inv(cfg, start)
    ensures Inv(cfg, CreateNew(start, None, table, columns))
  {
    CreateKeepsInv(cfg, start, None, table, columns);
  }

  /** The session after creating a table and making the cut. */
  function CutSession(cfg: Config, table: string, columns: seq<(string, ColumnType)>, segments: seq<seq<Row>>): Db {
    Run(cfg, NewSession(EMPTY_CATALOG), [CreateTable(table, None, columns)] + CutPlans(table, segments))
  }

  lemma RunFirst(cfg: Config, db: Db, a: PlanNode, plans: seq<PlanNode>)
    ensures Run(cfg, db, [a] + plans) == Run(cfg, Exec(cfg, db, a).0, plans)
  {
    assert ([a] + plans)[1..] == plans;
  }

  /** Every cut of rows into pieces that are not empty and fit a chunk is made by some run. */
  lemma EveryCutIsMade(cfg: Config, table: string, columns: seq<(string, ColumnType)>, segments: seq<seq<Row>>)
      returns (db: Db, meta: TableMeta)
    requires cfg.chunkSize > 0
    requires forall s :: s in segments ==> Insertable(TableSchema(columns), s) && 1 <= |s| <= cfg.chunkSize
    ensures db == CutSession(cfg, table, columns, segments)
    ensures CutTo(cfg, table, db, meta, TableSchema(columns), segments, [])
  {
    NewSessionInv(cfg, EMPTY_CATALOG);
    var made;
    made, meta := TableMade(cfg, table, columns, NewSession(EMPTY_CATALOG));
    db := PiecesOn(cfg, table, made, meta, TableSchema(columns), segments);
    RunFirst(cfg, NewSession(EMPTY_CATALOG), CreateTable(table, None, columns), CutPlans(table, segments));
  }

  // ----- the condition for chunks, on runs

  function Asking(table: string, agg: AggExpr): PlanNode {
    Aggregate(Scan(table, None), [agg])
  }

  /** In the session that made the cut, an aggregate over the table is answered as from its rows. */
  ghost predicate AnsweredRight(cfg: Config, db: Db, table: string, agg: AggExpr) {
    Exec(cfg, db, Asking(table, agg)).1 == AsOutcome(Evaluate(cfg.render, db, Asking(table, agg)))
  }

  lemma OneAggregateOfRows(rows: seq<Row>, schema: Schema, agg: AggExpr)
    ensures RowAggregates(rows, schema, [agg]) ==
      match RowAggregate(rows, schema, agg) { case Success(v) => Success([v]) case Failure(e) => Failure(e) }
  {
    assert [agg][1..] == [];
    assert RowAggregates(rows, schema, []) == Success([]);
    if RowAggregate(rows, schema, agg).Success? {
      var v := RowAggregate(rows, schema, agg).value;
      assert [v] + [] == [v];
    }
  }

  lemma AnsweredIff(cfg: Config, table: string, db: Db, meta: TableMeta, schema: Schema, segments: seq<seq<Row>>,
                    agg: AggExpr)
    requires CutTo(cfg, table, db, meta, schema, segments, [])
    ensures AnsweredRight(cfg, db, table, agg)
       <==> segments == [] || PathsAgree(schema, ChunksOf(db.columnar, meta.id), Concat(segments), agg)
  {
    var rows, chunks := TableRows(db.rows, meta.id), ChunksOf(db.columnar, meta.id);
    assert rows == Concat(segments);
    NothingBuffered(db, meta.id, schema);
    AggregatePaths(cfg, db, Scan(table, None), meta, [agg]);
    EvaluateAggregate(cfg.render, db, Scan(table, None), meta, [agg]);
    OneAggregateOfRows(rows, schema, agg);
    assert ChunkAggregates(chunks, [agg]) == [ChunkAggregate(chunks, agg)];
  }

  /** What chunks answer does not depend on their ids. */
  lemma IdsDoNotMatter(schema: Schema, a: seq<ColumnarChunk>, b: seq<ColumnarChunk>, segments: seq<seq<Row>>,
                       agg: AggExpr)
    requires Indexed(schema) && HoldsSegments(schema, a, segments) && HoldsSegments(schema, b, segments)
    ensures ChunkAggregate(a, agg) == ChunkAggregate(b, agg)
  {
    if agg.CountStar? {
      TotalRowsOfSegments(schema, a, segments);
      TotalRowsOfSegments(schema, b, segments);
    } else {
      SlicesAre(schema, a, segments, agg.column);
      SlicesAre(schema, b, segments, agg.column);
    }
  }

  lemma {:induction false} PiecesInsertable(schema: Schema, segments: seq<seq<Row>>)
    requires Insertable(schema, Concat(segments))
    ensures forall s :: s in segments ==> Insertable(schema, s)
  {
    if segments != [] {
      LastPiece(segments);
      var front, piece := segments[..|segments| - 1], segments[|segments| - 1];
      PiecesInsertable(schema, front);
      forall s | s in segments ensures Insertable(schema, s) {
        assert s in front || s == piece;
      }
    }
  }

  ghost predicate RunAnswers(cfg: Config, table: string, columns: seq<(string, ColumnType)>, agg: AggExpr,
                             segments: seq<seq<Row>>) {
    AnsweredRight(cfg, CutSession(cfg, table, columns, segments), table, agg)
  }

  /** Whatever cut of the rows a run makes, it answers right. */
  ghost predicate EveryRunAnswers(cfg: Config, table: string, columns: seq<(string, ColumnType)>, agg: AggExpr,
                                  rows: seq<Row>) {
    forall segments :: IsCut(cfg.chunkSize, segments, rows) ==> RunAnswers(cfg, table, columns, agg, segments)
  }

  lemma RunAnswersIff(cfg: Config, table: string, columns: seq<(string, ColumnType)>, agg: AggExpr, rows: seq<Row>,
                      segments: seq<seq<Row>>) returns (chunks: seq<ColumnarChunk>)
    requires cfg.chunkSize > 0 && Insertable(TableSchema(columns), rows) && IsCut(cfg.chunkSize, segments, rows)
    ensures HoldsSegments(TableSchema(columns), chunks, segments)
    ensures RunAnswers(cfg, table, columns, agg, segments)
       <==> segments == [] || PathsAgree(TableSchema(columns), chunks, rows, agg)
  {
    PiecesInsertable(TableSchema(columns), segments);
    var db, meta := EveryCutIsMade(cfg, table, columns, segments);
    AnsweredIff(cfg, table, db, meta, TableSchema(columns), segments, agg);
    chunks := ChunksOf(db.columnar, meta.id);
  }

  lemma {:induction false} NoRowsNoPieces(size: nat, segments: seq<seq<Row>>, rows: seq<Row>)
    requires IsCut(size, segments, rows)
    ensures rows == [] <==> segments == []
  {
    if segments != [] {
      LastPiece(segments);
    }
  }

  lemma SafeRunsAnswer(cfg: Config, table: string, columns: seq<(string, ColumnType)>, agg: AggExpr, rows: seq<Row>)
    requires cfg.chunkSize > 0 && Insertable(TableSchema(columns), rows)
    requires rows == [] || ChunkSafe(TableSchema(columns), rows, agg)
    ensures EveryRunAnswers(cfg, table, columns, agg, rows)
  {
    forall segments | IsCut(cfg.chunkSize, segments, rows) ensures RunAnswers(cfg, table, columns, agg, segments) {
      var chunks := RunAnswersIff(cfg, table, columns, agg, rows, segments);
      NoRowsNoPieces(cfg.chunkSize, segments, rows);
      if segments != [] {
        ChunksAgreeWithRows(TableSchema(columns), chunks, segments, agg);
      }
    }
  }

  /** An aggregate over a table is answered as from its rows after every run that makes a cut of them, if the
      aggregate is safe on the rows; and for rows that fit one chunk only then. */
  lemma EveryRunAnswersIff(cfg: Config, table: string, columns: seq<(string, ColumnType)>, agg: AggExpr, rows: seq<Row>)
    requires cfg.chunkSize > 0 && Insertable(TableSchema(columns), rows) && |rows| <= I64_MAX
    ensures rows == [] || ChunkSafe(TableSchema(columns), rows, agg) ==> EveryRunAnswers(cfg, table, columns, agg, rows)
    ensures |rows| <= cfg.chunkSize && EveryRunAnswers(cfg, table, columns, agg, rows) ==>
      rows == [] || ChunkSafe(TableSchema(columns), rows, agg)
  {
    var schema := TableSchema(columns);
    if rows == [] || ChunkSafe(schema, rows, agg) {
      SafeRunsAnswer(cfg, table, columns, agg, rows);
    }
    if rows != [] && |rows| <= cfg.chunkSize && EveryRunAnswers(cfg, table, columns, agg, rows) {
      forall chunks, segments | HoldsSegments(schema, chunks, segments) && IsCut(cfg.chunkSize, segments, rows)
        ensures PathsAgree(schema, chunks, rows, agg)
      {
        var made := RunAnswersIff(cfg, table, columns, agg, rows, segments);
        NoRowsNoPieces(cfg.chunkSize, segments, rows);
        IdsDoNotMatter(schema, made, chunks, segments, agg);
      }
      EveryChunkingAgreesIffSafe(cfg.chunkSize, schema, rows, agg);
    }
  }
}
