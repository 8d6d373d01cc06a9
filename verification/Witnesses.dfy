/** Short runs that reach the states in which the fast paths differ from the rows. */
module Witnesses {
  import opened Aggregates
  import opened Catalogs
  import opened Columnar
  import opened CutRuns
  import opened Engine
  import opened Grouping
  import opened IndexKeys
  import opened Invariants
  import opened Plans
  import opened Refinement
  import opened Saturation
  import opened Schemas
  import opened Seqs
  import opened TableStores
  import opened Values

  function Columns(): seq<(string, ColumnType)> {
    [(ID, BigInt)]
  }

  function Create(table: string): PlanNode {
    CreateTable(table, None, Columns())
  }

  function Source(table: string): PlanNode {
    Scan(table, None)
  }

  function InsertValue(table: string, v: Value): PlanNode {
    Insert(table, None, [[v]])
  }

  function After(cfg: Config, plans: seq<PlanNode>): Db {
    Run(cfg, NewSession(EMPTY_CATALOG), plans)
  }

  /** The table exists with its index and holds these rows. */
  ghost predicate TableHolds(cfg: Config, table: string, db: Db, meta: TableMeta, rows: seq<Row>) {
    && Inv(cfg, db) && FindTable(db, None, table) == Success(meta)
    && meta.schema == TableSchema(Columns()) && TableRows(db.rows, meta.id) == rows
    && IndexedColumn(db, meta.id) == Some(0)
  }

  lemma TheColumn()
    ensures var schema := TableSchema(Columns());
      Indexed(schema) && schema.columns != [] && ColumnIndex(schema, ID) == Some(0)
  {
    var schema := TableSchema(Columns());
    assert schema.columns[..|schema.columns| - 1] == [];
  }

  /** The catalog and the stores after CREATE in a session where the table's id is still to be given out. */
  lemma CreatedFrom(cfg: Config, table: string, db: Db) returns (meta: TableMeta)
    requires Inv(cfg, db) && cfg.chunkSize > 0
    ensures TableHolds(cfg, table, CreateNew(db, None, table, Columns()), meta, [])
  {
    meta := NewMeta(db.catalog, NamespaceOf(None), table, TableSchema(Columns()), None);
    TheColumn();
    CreateIsFresh(db.catalog, NamespaceOf(None), table, TableSchema(Columns()), None);
    CreateIsLocal(db, None, table, Columns());
    CreateKeepsInv(cfg, db, None, table, Columns());
  }

  lemma CreateIsCreateNew(cfg: Config, table: string, db: Db)
    ensures Exec(cfg, db, Create(table)).0 == CreateNew(db, None, table, Columns())
  {
  }

  lemma Created(cfg: Config, table: string) returns (meta: TableMeta)
    requires cfg.chunkSize > 0
    ensures WithRows(cfg, table, meta, [])(Exec(cfg, NewSession(EMPTY_CATALOG), Create(table)).0)
  {
    NewSessionInv(cfg, EMPTY_CATALOG);
    meta := CreatedFrom(cfg, table, NewSession(EMPTY_CATALOG));
    CreateIsCreateNew(cfg, table, NewSession(EMPTY_CATALOG));
  }

  lemma OneRowInserted(cfg: Config, table: string, db: Db, meta: TableMeta, v: Value)
    requires FindTable(db, None, table) == Success(meta)
    ensures Exec(cfg, db, InsertValue(table, v)).0 == InsertOne(cfg, db, meta, [v]).0
  {
    var values := [[v]];
    assert values[1..] == [];
    assert InsertFrom(cfg, InsertOne(cfg, db, meta, [v]).0, meta, values[1..], 1).0 == InsertOne(cfg, db, meta, [v]).0;
  }

  lemma Inserted(cfg: Config, table: string, db: Db, meta: TableMeta, rows: seq<Row>, v: Value, rows': seq<Row>)
    requires TableHolds(cfg, table, db, meta, rows) && rows' == rows + [[v]]
    ensures TableHolds(cfg, table, Exec(cfg, db, InsertValue(table, v)).0, meta, rows')
  {
    FoundIsKnown(db, None, table);
    OneRowInserted(cfg, table, db, meta, v);
    InsertKeepsInv(cfg, db, meta, [v]);
    InsertIsLocal(cfg, db, meta, [v]);
    IndexesAfterShape(db, meta, [v]);
  }

  // ----- runs of two and three statements, whatever they do

  lemma RunOfTwo(cfg: Config, db: Db, a: PlanNode, b: PlanNode, p: Db -> bool, q: Db -> bool)
    requires p(Exec(cfg, db, a).0) && forall d: Db :: p(d) ==> q(Exec(cfg, d, b).0)
    ensures q(Run(cfg, db, [a, b]))
  {
    assert [a, b][1..] == [b] && [b][1..] == [];
    var one := Exec(cfg, db, a).0;
    assert Run(cfg, one, [b]) == Exec(cfg, one, b).0;
  }

  lemma RunOfThree(cfg: Config, db: Db, a: PlanNode, b: PlanNode, c: PlanNode, p: Db -> bool, q: Db -> bool,
                   r: Db -> bool)
    requires p(Exec(cfg, db, a).0)
    requires forall d: Db :: p(d) ==> q(Exec(cfg, d, b).0)
    requires forall d: Db :: q(d) ==> r(Exec(cfg, d, c).0)
    ensures r(Run(cfg, db, [a, b, c]))
  {
    assert [a, b, c][1..] == [b, c];
    RunOfTwo(cfg, Exec(cfg, db, a).0, b, c, q, r);
  }

  /** The table with these rows, as a property of sessions. */
  ghost function WithRows(cfg: Config, table: string, meta: TableMeta, rows: seq<Row>): Db -> bool {
    (db: Db) => TableHolds(cfg, table, db, meta, rows)
  }

  lemma RowByRow(v: Row, w: Row)
    ensures [] + [v] == [v] && [v] + [w] == [v, w]
  {
  }

  lemma InsertLeadsOn(cfg: Config, table: string, meta: TableMeta, rows: seq<Row>, v: Value, rows': seq<Row>)
    requires rows' == rows + [[v]]
    ensures forall db: Db :: WithRows(cfg, table, meta, rows)(db) ==>
      WithRows(cfg, table, meta, rows')(Exec(cfg, db, InsertValue(table, v)).0)
  {
    forall db: Db | WithRows(cfg, table, meta, rows)(db)
      ensures WithRows(cfg, table, meta, rows')(Exec(cfg, db, InsertValue(table, v)).0)
    {
      Inserted(cfg, table, db, meta, rows, v, rows');
    }
  }

  lemma AfterOne(cfg: Config, table: string, v: Value) returns (meta: TableMeta)
    requires cfg.chunkSize > 0
    ensures WithRows(cfg, table, meta, [[v]])(After(cfg, [Create(table), InsertValue(table, v)]))
  {
    meta := Created(cfg, table);
    RowByRow([v], [v]);
    InsertLeadsOn(cfg, table, meta, [], v, [[v]]);
    RunOfTwo(cfg, NewSession(EMPTY_CATALOG), Create(table), InsertValue(table, v),
             WithRows(cfg, table, meta, []), WithRows(cfg, table, meta, [[v]]));
  }

  lemma AfterTwo(cfg: Config, table: string, v: Value, w: Value) returns (meta: TableMeta)
    requires cfg.chunkSize > 0
    ensures WithRows(cfg, table, meta, [[v], [w]])(
      After(cfg, [Create(table), InsertValue(table, v), InsertValue(table, w)]))
  {
    meta := Created(cfg, table);
    RowByRow([v], [w]);
    InsertLeadsOn(cfg, table, meta, [], v, [[v]]);
    InsertLeadsOn(cfg, table, meta, [[v]], w, [[v], [w]]);
    RunOfThree(cfg, NewSession(EMPTY_CATALOG), Create(table), InsertValue(table, v), InsertValue(table, w),
               WithRows(cfg, table, meta, []), WithRows(cfg, table, meta, [[v]]),
               WithRows(cfg, table, meta, [[v], [w]]));
  }

  /** What a query answers, and what it would answer from the rows. */
  ghost predicate Answers(cfg: Config, db: Db, query: PlanNode, answer: Result<Outcome>, reference: Result<Outcome>) {
    Exec(cfg, db, query).1 == answer && AsOutcome(Evaluate(cfg.render, db, query)) == reference
  }

  lemma SelectHead(p: Row -> bool, x: Row, y: Row)
    requires p(x) && !p(y)
    ensures Select(p, [x]) == [x] && Select(p, [x, y]) == [x] && Select(p, [y]) == []
  {
    assert [x, y][..|[x, y]| - 1] == [x] && [x][..|[x]| - 1] == [] && [y][..|[y]| - 1] == [];
  }

  lemma PublishedOne(v: Value)
    requires FromValue(v).Success?
    ensures PublishedRows(Some(0), [[v]]) == [[v]] && PublishedRows(Some(0), [[v], [Null]]) == [[v]]
  {
    SelectHead((row: Row) => Publishable(Some(0), row), [v], [Null]);
  }

  // ----- COUNT(*) and a failed INSERT

  lemma RowMissed(cfg: Config, table: string, db: Db, meta: TableMeta, rows: seq<Row>)
    requires TableHolds(cfg, table, db, meta, rows) && |rows| == 2 && |PublishedRows(Some(0), rows)| == 1
    ensures Answers(cfg, db, Aggregate(Source(table), [CountStar]), OneCount(1), OneCount(2))
  {
    TheColumn();
    CountStarAnswer(cfg, db, Source(table), meta);
    CountStarReference(cfg.render, db, Source(table), meta);
  }

  lemma RowIsMissed(cfg: Config, table: string, meta: TableMeta)
    ensures forall db: Db :: WithRows(cfg, table, meta, [[Int64(1)], [Null]])(db) ==>
      Answers(cfg, db, Aggregate(Source(table), [CountStar]), OneCount(1), OneCount(2))
  {
    PublishedOne(Int64(1));
    forall db: Db | WithRows(cfg, table, meta, [[Int64(1)], [Null]])(db)
      ensures Answers(cfg, db, Aggregate(Source(table), [CountStar]), OneCount(1), OneCount(2))
    {
      RowMissed(cfg, table, db, meta, [[Int64(1)], [Null]]);
    }
  }

  /** CREATE, INSERT 1, INSERT NULL: the second INSERT fails with its row stored, and COUNT(*) is 1 where a
      scan has two rows. */
  lemma CountMissesRow(cfg: Config, table: string)
    requires cfg.chunkSize > 0
    ensures Answers(cfg, After(cfg, [Create(table), InsertValue(table, Int64(1)), InsertValue(table, Null)]),
                    Aggregate(Source(table), [CountStar]), OneCount(1), OneCount(2))
  {
    var meta := AfterTwo(cfg, table, Int64(1), Null);
    RowIsMissed(cfg, table, meta);
  }

  // ----- COUNT(*) and a filter

  const IS_TWO := Cmp(ID, Eq, Int64(2))

  lemma OneIsNotTwo(schema: Schema)
    requires ColumnIndex(schema, ID) == Some(0)
    ensures FilterRows(IS_TWO, schema, [[Int64(1)]]) == []
  {
    SelectHead((row: Row) => EvalPredicate(row, IS_TWO, schema), [Int64(2)], [Int64(1)]);
  }

  lemma FilterPassedOver(cfg: Config, table: string, db: Db, meta: TableMeta, rows: seq<Row>)
    requires TableHolds(cfg, table, db, meta, rows) && |rows| == 1 && PublishedRows(Some(0), rows) == rows
    requires FilterRows(IS_TWO, meta.schema, rows) == []
    ensures Answers(cfg, db, Aggregate(Filter(Source(table), IS_TWO), [CountStar]), OneCount(1), OneCount(0))
  {
    TheColumn();
    FilteredCountAnswer(cfg, db, Source(table), IS_TWO, meta);
    FilteredCountReference(cfg.render, db, Source(table), IS_TWO, meta);
  }

  lemma FilterIsPassedOver(cfg: Config, table: string, meta: TableMeta)
    ensures forall db: Db :: WithRows(cfg, table, meta, [[Int64(1)]])(db) ==>
      Answers(cfg, db, Aggregate(Filter(Source(table), IS_TWO), [CountStar]), OneCount(1), OneCount(0))
  {
    TheColumn();
    PublishedOne(Int64(1));
    forall db: Db | WithRows(cfg, table, meta, [[Int64(1)]])(db)
      ensures Answers(cfg, db, Aggregate(Filter(Source(table), IS_TWO), [CountStar]), OneCount(1), OneCount(0))
    {
      OneIsNotTwo(meta.schema);
      FilterPassedOver(cfg, table, db, meta, [[Int64(1)]]);
    }
  }

  /** CREATE, INSERT 1: COUNT(*) WHERE id = 2 is 1. */
  lemma CountIgnoresFilter(cfg: Config, table: string)
    requires cfg.chunkSize > 0
    ensures Answers(cfg, After(cfg, [Create(table), InsertValue(table, Int64(1))]),
                    Aggregate(Filter(Source(table), IS_TWO), [CountStar]), OneCount(1), OneCount(0))
  {
    var meta := AfterOne(cfg, table, Int64(1));
    FilterIsPassedOver(cfg, table, meta);
  }

  // ----- MIN of MAX

  lemma MinOfOne(x: i64)
    ensures Ints(Cells([[Int64(x)]], 0)) == [x] && MinOf([x]) == x
  {
    var cells := Cells([[Int64(x)]], 0);
    assert cells == [Int64(x)] && cells[..0] == [] && [x][..0] == [];
  }

  lemma OneAggregate(rows: seq<Row>, schema: Schema, agg: AggExpr)
    requires RowAggregate(rows, schema, agg).Success?
    ensures RowAggregates(rows, schema, [agg]) == Success([RowAggregate(rows, schema, agg).value])
  {
    assert [agg][1..] == [];
    assert RowAggregates(rows, schema, []) == Success([]);
    assert [RowAggregate(rows, schema, agg).value] + [] == [RowAggregate(rows, schema, agg).value];
  }

  lemma MinOverRows(schema: Schema)
    requires ColumnIndex(schema, ID) == Some(0)
    ensures RowAggregates([[Int64(I64_MAX)]], schema, [Min(ID)]) == Success([Int64(I64_MAX)])
  {
    MinOfOne(I64_MAX);
    OneAggregate([[Int64(I64_MAX)]], schema, Min(ID));
  }

  lemma MinOverChunks(schema: Schema, chunks: seq<ColumnarChunk>, segments: seq<seq<Row>>)
    requires Indexed(schema) && ColumnIndex(schema, ID) == Some(0) && HoldsSegments(schema, chunks, segments)
    requires Concat(segments) == [[Int64(I64_MAX)]]
    ensures ChunkAggregates(chunks, [Min(ID)]) == [Null]
  {
    MinOfOne(I64_MAX);
    SlicesOfSegments(schema, chunks, segments, ID);
    assert ChunkAggregate(chunks, Min(ID)) == Null;
  }

  lemma OneAnswer(cfg: Config, table: string, db: Db, meta: TableMeta, agg: AggExpr, chunks: seq<ColumnarChunk>,
                  value: Value)
    requires FindTable(db, None, table) == Success(meta)
    requires chunks == ChunksOf(FlushBuffer(db, meta.id, meta.schema).columnar, meta.id)
    requires chunks != [] && ChunkAggregates(chunks, [agg]) == [value]
    ensures Exec(cfg, db, Aggregate(Source(table), [agg])).1 == Success(Rows([[value]]))
  {
    AggregatePaths(cfg, db, Source(table), meta, [agg]);
  }

  lemma MinFromChunks(cfg: Config, table: string, db: Db, meta: TableMeta, rows: seq<Row>)
    requires TableHolds(cfg, table, db, meta, rows) && rows == [[Int64(I64_MAX)]]
    requires PublishedRows(Some(0), rows) == rows
    ensures Exec(cfg, db, Aggregate(Source(table), [Min(ID)])).1 == Success(Rows([[Null]]))
  {
    TheColumn();
    FoundIsKnown(db, None, table);
    var segments := FlushedChunks(cfg, db, meta.id);
    NonEmptyConcat(segments);
    var chunks := ChunksOf(FlushBuffer(db, meta.id, meta.schema).columnar, meta.id);
    MinOverChunks(meta.schema, chunks, segments);
    OneAnswer(cfg, table, db, meta, Min(ID), chunks, Null);
  }

  lemma MinFromRows(cfg: Config, table: string, db: Db, meta: TableMeta, rows: seq<Row>)
    requires TableHolds(cfg, table, db, meta, rows) && rows == [[Int64(I64_MAX)]]
    ensures AsOutcome(Evaluate(cfg.render, db, Aggregate(Source(table), [Min(ID)])))
      == Success(Rows([[Int64(I64_MAX)]]))
  {
    TheColumn();
    MinOverRows(meta.schema);
    EvaluateAggregate(cfg.render, db, Source(table), meta, [Min(ID)]);
  }

  lemma MinIsNull(cfg: Config, table: string, meta: TableMeta)
    ensures forall db: Db :: WithRows(cfg, table, meta, [[Int64(I64_MAX)]])(db) ==>
      Answers(cfg, db, Aggregate(Source(table), [Min(ID)]), Success(Rows([[Null]])), Success(Rows([[Int64(I64_MAX)]])))
  {
    PublishedOne(Int64(I64_MAX));
    forall db: Db | WithRows(cfg, table, meta, [[Int64(I64_MAX)]])(db)
      ensures Answers(cfg, db, Aggregate(Source(table), [Min(ID)]),
                      Success(Rows([[Null]])), Success(Rows([[Int64(I64_MAX)]])))
    {
      MinFromChunks(cfg, table, db, meta, [[Int64(I64_MAX)]]);
      MinFromRows(cfg, table, db, meta, [[Int64(I64_MAX)]]);
    }
  }

  /** CREATE, INSERT MAX: MIN(id) is Null. */
  lemma MinOfMaxIsNull(cfg: Config, table: string)
    requires cfg.chunkSize > 0
    ensures Answers(cfg, After(cfg, [Create(table), InsertValue(table, Int64(I64_MAX))]),
                    Aggregate(Source(table), [Min(ID)]), Success(Rows([[Null]])), Success(Rows([[Int64(I64_MAX)]])))
  {
    var meta := AfterOne(cfg, table, Int64(I64_MAX));
    MinIsNull(cfg, table, meta);
  }

  // ----- SUM and where the chunks end

  lemma ThreeRows(a: Row, b: Row, c: Row, x: i64, y: i64, z: i64)
    requires a == [Int64(x)] && b == [Int64(y)] && c == [Int64(z)]
    ensures Ints(Cells([a], 0)) == [x] && Ints(Cells([b, c], 0)) == [y, z]
  {
    assert Cells([a], 0) == [Int64(x)] && Cells([b, c], 0) == [Int64(y), Int64(z)];
    assert [Int64(y), Int64(z)][..1] == [Int64(y)] && [Int64(x)][..0] == [] && [Int64(y)][..0] == [];
  }

  lemma CellsOfPieces(a: seq<Row>, b: seq<Row>)
    ensures Ints(Cells(a + b, 0)) == Ints(Cells(a, 0)) + Ints(Cells(b, 0))
  {
    MapConcat((row: Row) => CellOrNull(row, 0), a, b);
    IntsConcat(Cells(a, 0), Cells(b, 0));
  }

  lemma SumOverRows(schema: Schema, a: seq<Row>, b: seq<Row>)
    requires ColumnIndex(schema, ID) == Some(0) && Ints(Cells(a, 0)) == [I64_MAX] && Ints(Cells(b, 0)) == [1, -1]
    ensures RowAggregate(a + b, schema, Sum(ID)) == Success(Int64(I64_MAX - 1))
  {
    ChunksCanMatter();
    ConcatTwo([I64_MAX], [1, -1]);
    CellsOfPieces(a, b);
  }

  lemma SumOverChunks(schema: Schema, chunks: seq<ColumnarChunk>, a: seq<Row>, b: seq<Row>)
    requires Indexed(schema) && ColumnIndex(schema, ID) == Some(0) && HoldsSegments(schema, chunks, [a, b])
    requires Ints(Cells(a, 0)) == [I64_MAX] && Ints(Cells(b, 0)) == [1, -1]
    ensures ChunkAggregate(chunks, Sum(ID)) == Int64(I64_MAX)
  {
    ChunksCanMatter();
    ConcatTwo([I64_MAX], [1, -1]);
    SlicesAre(schema, chunks, [a, b], ID);
    assert IntSlices(CellSlices([a, b], 0)) == [[I64_MAX], [1, -1]];
    IntsOfSlices(CellSlices([a, b], 0));
  }

  /** CREATE, INSERT MAX, a query that flushes, INSERT 1 and -1, a query: SUM(id) is MAX, not MAX - 1. */
  lemma SumDependsOnFlush(cfg: Config, table: string)
    requires cfg.chunkSize >= 2
    ensures Answers(cfg, CutSession(cfg, table, Columns(), [[[Int64(I64_MAX)]], [[Int64(1)], [Int64(-1)]]]),
                    Asking(table, Sum(ID)), Success(Rows([[Int64(I64_MAX)]])), Success(Rows([[Int64(I64_MAX - 1)]])))
  {
    var a: seq<Row>, b: seq<Row> := [[Int64(I64_MAX)]], [[Int64(1)], [Int64(-1)]];
    TheColumn();
    ThreeRows(a[0], b[0], b[1], I64_MAX, 1, -1);
    SumAfterCut(cfg, table, a, b);
  }

  lemma SumAfterCut(cfg: Config, table: string, a: seq<Row>, b: seq<Row>)
    requires 1 <= |a| <= cfg.chunkSize && 1 <= |b| <= cfg.chunkSize
    requires Insertable(TableSchema(Columns()), a) && Insertable(TableSchema(Columns()), b)
    requires Ints(Cells(a, 0)) == [I64_MAX] && Ints(Cells(b, 0)) == [1, -1]
    ensures Answers(cfg, CutSession(cfg, table, Columns(), [a, b]), Asking(table, Sum(ID)),
                    Success(Rows([[Int64(I64_MAX)]])), Success(Rows([[Int64(I64_MAX - 1)]])))
  {
    var db, meta := EveryCutIsMade(cfg, table, Columns(), [a, b]);
    SumFromCut(cfg, table, db, meta, TableSchema(Columns()), a, b);
  }

  lemma RowAnswer(render: Renderer, table: string, db: Db, meta: TableMeta, agg: AggExpr, rows: seq<Row>, value: Value)
    requires FindTable(db, None, table) == Success(meta) && rows == TableRows(db.rows, meta.id)
    requires RowAggregate(rows, meta.schema, agg) == Success(value)
    ensures AsOutcome(Evaluate(render, db, Asking(table, agg))) == Success(Rows([[value]]))
  {
    EvaluateAggregate(render, db, Source(table), meta, [agg]);
    OneAggregate(rows, meta.schema, agg);
  }

  lemma OneChunkAnswer(chunks: seq<ColumnarChunk>, agg: AggExpr, value: Value)
    requires ChunkAggregate(chunks, agg) == value
    ensures ChunkAggregates(chunks, [agg]) == [value]
  {
  }

  lemma SumFromCut(cfg: Config, table: string, db: Db, meta: TableMeta, schema: Schema, a: seq<Row>, b: seq<Row>)
    requires CutTo(cfg, table, db, meta, schema, [a, b], []) && schema == TableSchema(Columns())
    requires Ints(Cells(a, 0)) == [I64_MAX] && Ints(Cells(b, 0)) == [1, -1]
    ensures Answers(cfg, db, Asking(table, Sum(ID)), Success(Rows([[Int64(I64_MAX)]])),
                    Success(Rows([[Int64(I64_MAX - 1)]])))
  {
    var chunks := ChunksOf(db.columnar, meta.id);
    TheColumn();
    NothingBuffered(db, meta.id, schema);
    SumOverChunks(schema, chunks, a, b);
    SumOverRows(schema, a, b);
    ConcatOfTwo(a, b);
    OneChunkAnswer(chunks, Sum(ID), Int64(I64_MAX));
    OneAnswer(cfg, table, db, meta, Sum(ID), chunks, Int64(I64_MAX));
    RowAnswer(cfg.render, table, db, meta, Sum(ID), a + b, Int64(I64_MAX - 1));
  }

  lemma ConcatOfTwo(a: seq<Row>, b: seq<Row>)
    ensures Concat([a, b]) + [] == a + b
  {
    assert [a, b][..|[a, b]| - 1] == [a] && [a][..|[a]| - 1] == [];
    assert Concat([a]) == a;
  }

  // ----- COUNT(*) and a deleted document

  lemma ThreeEvents(cfg: Config, db: Db, a: Event, b: Event, c: Event)
    ensures RunEvents(cfg, db, [a, b, c]) == AfterEvent(cfg, AfterEvent(cfg, AfterEvent(cfg, db, a), b), c)
  {
    assert [a, b, c][1..] == [b, c] && [b, c][1..] == [c] && [c][1..] == [];
    assert RunEvents(cfg, AfterEvent(cfg, db, a), [b, c])
        == RunEvents(cfg, AfterEvent(cfg, AfterEvent(cfg, db, a), b), [c]);
  }

  lemma CreatedFirst(cfg: Config, table: string) returns (db: Db, meta: TableMeta)
    requires cfg.chunkSize > 0
    ensures db == Exec(cfg, NewSession(EMPTY_CATALOG), Create(table)).0
    ensures TableHolds(cfg, table, db, meta, []) && meta.id == 0 && db.rows == NO_ROWS
  {
    var start := NewSession(EMPTY_CATALOG);
    NewSessionInv(cfg, EMPTY_CATALOG);
    meta := CreatedFrom(cfg, table, start);
    CreateIsCreateNew(cfg, table, start);
    CreateIsFresh(EMPTY_CATALOG, NamespaceOf(None), table, TableSchema(Columns()), None);
    db := CreateNew(start, None, table, Columns());
  }

  lemma InsertedFirst(cfg: Config, table: string, db: Db, meta: TableMeta, v: Value) returns (db': Db)
    requires TableHolds(cfg, table, db, meta, []) && db.rows == NO_ROWS
    ensures db' == Exec(cfg, db, InsertValue(table, v)).0
    ensures TableHolds(cfg, table, db', meta, [[v]]) && db'.rows == InsertRow(NO_ROWS, meta.id, [v])
  {
    RowByRow([v], [v]);
    Inserted(cfg, table, db, meta, [], v, [[v]]);
    FoundIsKnown(db, None, table);
    OneRowInserted(cfg, table, db, meta, v);
    InsertIsLocal(cfg, db, meta, [v]);
    db' := Exec(cfg, db, InsertValue(table, v)).0;
  }

  lemma CountFromChunks(cfg: Config, table: string, db: Db, meta: TableMeta, rows: seq<Row>)
    requires TableHolds(cfg, table, db, meta, rows) && |rows| == 1 && PublishedRows(Some(0), rows) == rows
    ensures
      var chunks := ChunksOf(FlushBuffer(db, meta.id, meta.schema).columnar, meta.id);
      chunks != [] && ChunkAggregates(chunks, [CountStar]) == [Int64(1)]
  {
    TheColumn();
    FoundIsKnown(db, None, table);
    var segments := FlushedChunks(cfg, db, meta.id);
    NonEmptyConcat(segments);
    CountChunks(meta.schema, ChunksOf(FlushBuffer(db, meta.id, meta.schema).columnar, meta.id), segments);
  }

  /** Two sessions that differ in their rows at most. */
  predicate SameButRows(db: Db, db': Db) {
    db'.catalog == db.catalog && db'.columnar == db.columnar && db'.buffer == db.buffer && db'.indexes == db.indexes
  }

  lemma FlushPassesRowsOver(db: Db, db': Db, t: TableId, schema: Schema)
    requires SameButRows(db, db')
    ensures FlushBuffer(db', t, schema).columnar == FlushBuffer(db, t, schema).columnar
  {
  }

  lemma CountedAfterDelete(cfg: Config, table: string, db: Db, db': Db, meta: TableMeta, row: Row)
    requires TableHolds(cfg, table, db, meta, [row]) && PublishedRows(Some(0), [row]) == [row]
    requires SameButRows(db, db')
    ensures FindTable(db', None, table) == Success(meta)
    ensures Exec(cfg, db', Aggregate(Source(table), [CountStar])).1 == OneCount(1)
  {
    CountFromChunks(cfg, table, db, meta, [row]);
    FlushPassesRowsOver(db, db', meta.id, meta.schema);
    OneAnswer(cfg, table, db', meta, CountStar, ChunksOf(FlushBuffer(db', meta.id, meta.schema).columnar, meta.id),
              Int64(1));
  }

  lemma NoneAfterDelete(render: Renderer, table: string, db: Db, meta: TableMeta)
    requires FindTable(db, None, table) == Success(meta) && db.rows.data == map[]
    ensures AsOutcome(Evaluate(render, db, Aggregate(Source(table), [CountStar]))) == OneCount(0)
  {
    UnusedTableIsEmpty(db.rows, meta.id);
    CountStarReference(render, db, Source(table), meta);
  }

  lemma OnlyRowDeleted(t: TableId, row: Row)
    ensures DeleteRow(InsertRow(NO_ROWS, t, row), t, 0).data == map[]
  {
  }

  lemma PublishedRow(row: Row)
    requires Publishable(Some(0), row)
    ensures PublishedRows(Some(0), [row]) == [row]
  {
    SelectAll((r: Row) => Publishable(Some(0), r), [row]);
  }

  function OneDeleted(table: string, v: Value): seq<Event> {
    [Statement(Create(table)), Statement(InsertValue(table, v)), DocumentDelete(0, 0)]
  }

  lemma DeletedSession(cfg: Config, table: string, v: Value) returns (db: Db, db': Db, meta: TableMeta)
    requires cfg.chunkSize > 0
    ensures TableHolds(cfg, table, db, meta, [[v]])
    ensures RunEvents(cfg, NewSession(EMPTY_CATALOG), OneDeleted(table, v)) == db'
    ensures SameButRows(db, db') && db'.rows.data == map[]
  {
    var created;
    created, meta := CreatedFirst(cfg, table);
    db := InsertedFirst(cfg, table, created, meta, v);
    ThreeEvents(cfg, NewSession(EMPTY_CATALOG), Statement(Create(table)), Statement(InsertValue(table, v)),
                DocumentDelete(0, 0));
    OnlyRowDeleted(0, [v]);
    db' := db.(rows := DeleteRow(db.rows, 0, 0));
  }

  lemma DeletedCounts(cfg: Config, table: string, db: Db, db': Db, meta: TableMeta, row: Row)
    requires TableHolds(cfg, table, db, meta, [row]) && Publishable(Some(0), row)
    requires SameButRows(db, db') && db'.rows.data == map[]
    ensures Answers(cfg, db', Aggregate(Source(table), [CountStar]), OneCount(1), OneCount(0))
  {
    PublishedRow(row);
    CountedAfterDelete(cfg, table, db, db', meta, row);
    NoneAfterDelete(cfg.render, table, db', meta);
  }

  /** CREATE, INSERT 1 or any value that can be indexed, delete that row as a document: COUNT(*) is still 1. */
  lemma CountKeepsDeleted(cfg: Config, table: string, v: Value)
    requires cfg.chunkSize > 0 && FromValue(v).Success?
    ensures Answers(cfg, RunEvents(cfg, NewSession(EMPTY_CATALOG), OneDeleted(table, v)),
                    Aggregate(Source(table), [CountStar]), OneCount(1), OneCount(0))
  {
    var db, db', meta := DeletedSession(cfg, table, v);
    DeletedCounts(cfg, table, db, db', meta, [v]);
  }

  // ----- a hidden table

  lemma CreatedTwice(cfg: Config, table: string) returns (created: Db)
    ensures created == Exec(cfg, NewSession(EMPTY_CATALOG), Create(table)).0
    ensures After(cfg, [Create(table), Create(table)]) == CreateNew(created, None, table, Columns())
  {
    created := Exec(cfg, NewSession(EMPTY_CATALOG), Create(table)).0;
    assert [Create(table), Create(table)][1..] == [Create(table)] && [Create(table)][1..] == [];
    assert Run(cfg, created, [Create(table)]) == Exec(cfg, created, Create(table)).0;
    CreateIsCreateNew(cfg, table, created);
  }

  /** CREATE and CREATE again: the name finds the second table, and after saving and loading it may find the
      first. */
  lemma FirstComesBack(cfg: Config, table: string)
    requires cfg.chunkSize > 0
    ensures
      var db := After(cfg, [Create(table), Create(table)]);
      0 in db.catalog.byId && exists snap :: TakesNameBack(db.catalog, snap, NamespaceOf(None), 0)
  {
    var first, meta := CreatedFirst(cfg, table);
    var created := CreatedTwice(cfg, table);
    TheColumn();
    CreateShadows(created.catalog, NamespaceOf(None), table, TableSchema(Columns()), None, meta);
  }
}
