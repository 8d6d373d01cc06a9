/** Queries answered from indexes and chunks give what plain evaluation over the scanned rows gives. */
module Refinement {
  import opened Aggregates
  import opened BTreeIndexes
  import opened Catalogs
  import opened Columnar
  import opened Engine
  import opened Grouping
  import opened IndexedLookups
  import opened IndexKeys
  import opened Invariants
  import opened Plans
  import opened RowOrder
  import opened Schemas
  import opened Seqs
  import opened Sorting
  import opened TableStores
  import opened Values

  /** The reference: every operator applied to rows, starting from the scan; it reads neither index nor
      chunk and changes nothing. */
  function Evaluate(render: Renderer, db: Db, plan: PlanNode): Result<seq<Row>> {
    match plan
    case Scan(table, namespace) =>
      var meta :- FindTable(db, namespace, table);
      Success(TableRows(db.rows, meta.id))
    case Filter(input, pred) =>
      var meta :- ScanMeta(db, input);
      var rows :- Evaluate(render, db, input);
      Success(FilterRows(pred, meta.schema, rows))
    case Limit(input, limit, offset) =>
      var rows :- Evaluate(render, db, input);
      Success(LimitRows(limit, offset, rows))
    case Aggregate(input, aggs) =>
      var meta :- ScanMeta(db, input);
      var rows :- Evaluate(render, db, input);
      var values :- RowAggregates(rows, meta.schema, aggs);
      Success([values])
    case Project(input, names) =>
      var rows :- Evaluate(render, db, input);
      var meta :- ScanMeta(db, input);
      Success(ProjectRows(names, meta.schema, rows))
    case GroupBy(input, keys, aggs) =>
      var rows :- Evaluate(render, db, input);
      var meta :- ScanMeta(db, input);
      GroupByRows(render, meta.schema, keys, aggs, rows)
    case OrderBy(input, order) =>
      var rows :- Evaluate(render, db, input);
      var meta :- ScanMeta(db, input);
      OrderRows(meta.schema, order, rows)
    case _ => Failure(ExpectedRows)
  }

  /** A chain of query nodes over a scan. */
  predicate IsQuery(plan: PlanNode) {
    match plan
    case Scan(_, _) => true
    case Insert(_, _, _) => false
    case CreateTable(_, _, _) => false
    case DropTable(_, _) => false
    case _ => IsQuery(plan.input)
  }

  ghost predicate SameData(db: Db, db': Db) {
    db'.catalog == db.catalog && db'.rows == db.rows && db'.indexes == db.indexes
  }

  ghost predicate AllPublished(db: Db, t: TableId) {
    Published(db, t) == TableRows(db.rows, t)
  }

  // ----- queries change no data

  lemma {:induction false} QueryKeepsData(cfg: Config, db: Db, plan: PlanNode)
    requires IsQuery(plan)
    ensures SameData(db, Exec(cfg, db, plan).0)
    decreases plan, 0
  {
    match plan
    case Scan(_, _) =>
    case Filter(input, _) => QueryKeepsData(cfg, db, input);
    case Aggregate(input, aggs) =>
      if ScanMeta(db, input).Success? {
        var meta := ScanMeta(db, input).value;
        FlushIsLocal(db, meta.id, meta.schema);
        AggregateInputKeepsData(cfg, FlushBuffer(db, meta.id, meta.schema), input, meta.schema, aggs);
      }
    case Project(input, _) => QueryKeepsData(cfg, db, input);
    case GroupBy(input, _, _) => QueryKeepsData(cfg, db, input);
    case OrderBy(input, _) => QueryKeepsData(cfg, db, input);
    case Limit(input, _, _) => QueryKeepsData(cfg, db, input);
    case _ =>
  }

  lemma {:induction false} AggregateInputKeepsData(cfg: Config, db: Db, input: PlanNode, schema: Schema,
                                                   aggs: seq<AggExpr>)
    requires IsQuery(input)
    ensures SameData(db, AggregateInput(cfg, db, input, schema, aggs).0)
    decreases input, |aggs| + 1
  {
    if aggs != [] {
      QueryKeepsData(cfg, db, input);
      AggregateInputKeepsData(cfg, Exec(cfg, db, input).0, input, schema, aggs[1..]);
    }
  }

  lemma {:induction false} ScannedIsQuery(db: Db, node: PlanNode)
    requires ScanMeta(db, node).Success?
    ensures IsQuery(node)
  {
    if !node.Scan? {
      ScannedIsQuery(db, node.input);
    }
  }

  /** Only queries yield rows: a statement that changes tables, buried in a query, makes it fail. */
  lemma {:induction false} RowsComeFromQueries(cfg: Config, db: Db, plan: PlanNode)
    requires RowsOf(Exec(cfg, db, plan).1).Success?
    ensures IsQuery(plan)
  {
    match plan
    case Scan(_, _) =>
    case Filter(input, _) => ScannedIsQuery(db, input);
    case Aggregate(input, _) => ScannedIsQuery(db, input);
    case Insert(table, namespace, values) =>
      if FindTable(db, namespace, table).Success? {
        InsertYieldsNoRows(cfg, db, FindTable(db, namespace, table).value, values, 0);
      }
    case CreateTable(_, _, _) =>
    case DropTable(_, _) =>
    case _ => RowsComeFromQueries(cfg, db, plan.input);
  }

  lemma {:induction false} InsertYieldsNoRows(cfg: Config, db: Db, meta: TableMeta, values: seq<Row>, count: nat)
    ensures RowsOf(InsertFrom(cfg, db, meta, values, count).1).Failure?
    decreases |values|
  {
    if values != [] {
      var (db', error) := InsertOne(cfg, db, meta, values[0]);
      if error.None? {
        InsertYieldsNoRows(cfg, db', meta, values[1..], count + 1);
      }
    }
  }

  // ----- aggregates over a scan

  lemma {:induction false} AggregateInputOfScan(cfg: Config, db: Db, input: PlanNode, meta: TableMeta,
                                                aggs: seq<AggExpr>)
    requires input.Scan? && ScanMeta(db, input) == Success(meta)
    ensures AggregateInput(cfg, db, input, meta.schema, aggs)
         == (db, RowAggregates(TableRows(db.rows, meta.id), meta.schema, aggs))
    decreases |aggs|
  {
    if aggs != [] {
      AggregateInputOfScan(cfg, db, input, meta, aggs[1..]);
    }
  }

  lemma ChunkAggregatesHead(chunks: seq<ColumnarChunk>, aggs: seq<AggExpr>)
    requires aggs != []
    ensures ChunkAggregates(chunks, aggs) == [ChunkAggregate(chunks, aggs[0])] + ChunkAggregates(chunks, aggs[1..])
  {
  }

  lemma {:induction false} RowAggregatesFromChunks(schema: Schema, chunks: seq<ColumnarChunk>,
                                                   segments: seq<seq<Row>>, aggs: seq<AggExpr>)
    requires Indexed(schema) && HoldsSegments(schema, chunks, segments)
    requires forall agg :: agg in aggs ==> ChunkSafe(schema, Concat(segments), agg)
    ensures RowAggregates(Concat(segments), schema, aggs) == Success(ChunkAggregates(chunks, aggs))
  {
    if aggs != [] {
      ChunksAgreeWithRows(schema, chunks, segments, aggs[0]);
      RowAggregatesFromChunks(schema, chunks, segments, aggs[1..]);
      ChunkAggregatesHead(chunks, aggs);
    }
  }

  /** After the flush that precedes it, an aggregate finds the published rows in the chunks. */
  lemma FlushedChunks(cfg: Config, db: Db, t: TableId) returns (segments: seq<seq<Row>>)
    requires Inv(cfg, db) && t in db.catalog.byId
    ensures
      var schema := db.catalog.byId[t].schema;
      && Indexed(schema)
      && HoldsSegments(schema, ChunksOf(FlushBuffer(db, t, schema).columnar, t), segments)
      && Concat(segments) == Published(db, t)
      && (forall s :: s in segments ==> s != [])
  {
    FlushedCover(cfg, db, t);
    segments := SegmentsOf(cfg.chunkSize, db.catalog.byId[t].schema,
                           ChunksOf(FlushBuffer(db, t, db.catalog.byId[t].schema).columnar, t), Published(db, t));
  }

  lemma FlushedCover(cfg: Config, db: Db, t: TableId)
    requires Inv(cfg, db) && t in db.catalog.byId
    ensures var schema := db.catalog.byId[t].schema;
      Indexed(schema) && Covered(cfg.chunkSize, schema, ChunksOf(FlushBuffer(db, t, schema).columnar, t), [],
                                 Published(db, t))
  {
    var db' := FlushBuffer(db, t, db.catalog.byId[t].schema);
    FlushKeepsColumns(cfg, db, t);
    FlushIsLocal(db, t, db.catalog.byId[t].schema);
    assert TableCovered(cfg, db', t) && BufferOf(db', t) == [];
  }

  lemma SegmentsOf(size: nat, schema: Schema, chunks: seq<ColumnarChunk>, published: seq<Row>)
    returns (segments: seq<seq<Row>>)
    requires Covered(size, schema, chunks, [], published)
    ensures HoldsSegments(schema, chunks, segments) && Concat(segments) == published
    ensures forall s :: s in segments ==> s != []
  {
    segments :| Covers(size, schema, chunks, [], published, segments);
    assert Concat(segments) + [] == Concat(segments);
  }

  /** The two ways an aggregate directly over a scan is answered. */
  lemma AggregatePaths(cfg: Config, db: Db, input: PlanNode, meta: TableMeta, aggs: seq<AggExpr>)
    requires input.Scan? && ScanMeta(db, input) == Success(meta)
    ensures
      var chunks := ChunksOf(FlushBuffer(db, meta.id, meta.schema).columnar, meta.id);
      Exec(cfg, db, Aggregate(input, aggs)).1 ==
        if chunks == [] then AsOneRow(RowAggregates(TableRows(db.rows, meta.id), meta.schema, aggs))
        else Success(Rows([ChunkAggregates(chunks, aggs)]))
  {
    FlushIsLocal(db, meta.id, meta.schema);
    AggregateInputOfScan(cfg, FlushBuffer(db, meta.id, meta.schema), input, meta, aggs);
  }

  lemma EvaluateAggregate(render: Renderer, db: Db, input: PlanNode, meta: TableMeta, aggs: seq<AggExpr>)
    requires input.Scan? && ScanMeta(db, input) == Success(meta)
    ensures AsOutcome(Evaluate(render, db, Aggregate(input, aggs)))
         == AsOneRow(RowAggregates(TableRows(db.rows, meta.id), meta.schema, aggs))
  {
    assert Evaluate(render, db, input) == Success(TableRows(db.rows, meta.id));
  }

  lemma {:induction false} NonEmptyConcat(segments: seq<seq<Row>>)
    requires forall s :: s in segments ==> s != []
    ensures Concat(segments) == [] <==> segments == []
  {
    if segments != [] {
      assert segments[|segments| - 1] in segments;
    }
  }

  lemma CountRows(rows: seq<Row>, schema: Schema)
    ensures RowAggregates(rows, schema, [CountStar]) == Success([Int64(AsI64(|rows|))])
  {
    var aggs := [CountStar];
    assert aggs[1..] == [] && RowAggregates(rows, schema, []) == Success([]);
    assert RowAggregate(rows, schema, aggs[0]) == Success(Int64(AsI64(|rows|)));
    assert [Int64(AsI64(|rows|))] + [] == [Int64(AsI64(|rows|))];
  }

  lemma CountChunks(schema: Schema, chunks: seq<ColumnarChunk>, segments: seq<seq<Row>>)
    requires Indexed(schema) && HoldsSegments(schema, chunks, segments) && schema.columns != []
    ensures ChunkAggregates(chunks, [CountStar]) == [Int64(AsI64(|Concat(segments)|))]
  {
    TotalRowsOfSegments(schema, chunks, segments);
  }

  lemma FewerPublished(c: Option<nat>, rows: seq<Row>)
    ensures |PublishedRows(c, rows)| <= |rows|
    ensures |PublishedRows(c, rows)| == |rows| <==> PublishedRows(c, rows) == rows
  {
    SelectSameLength((row: Row) => Publishable(c, row), (row: Row) => true, rows);
    SelectAll((row: Row) => true, rows);
    if |PublishedRows(c, rows)| == |rows| {
      SelectAll((row: Row) => Publishable(c, row), rows);
    }
  }

  function OneCount(n: nat): Result<Outcome> {
    Success(Rows([[Int64(AsI64(n))]]))
  }

  lemma CountsDiffer(m: nat, n: nat)
    requires m <= I64_MAX && n <= I64_MAX
    ensures OneCount(m) == OneCount(n) <==> m == n
  {
    assert OneCount(m).value.rows[0][0].i == m && OneCount(n).value.rows[0][0].i == n;
  }

  lemma CountStarAnswer(cfg: Config, db: Db, input: PlanNode, meta: TableMeta)
    requires Inv(cfg, db) && input.Scan? && ScanMeta(db, input) == Success(meta) && meta.schema.columns != []
    ensures
      var published := Published(db, meta.id);
      Exec(cfg, db, Aggregate(input, [CountStar])).1
        == OneCount(if published == [] then |TableRows(db.rows, meta.id)| else |published|)
  {
    ScannedIsKnown(db, input);
    var segments := FlushedChunks(cfg, db, meta.id);
    NonEmptyConcat(segments);
    CountChunks(meta.schema, ChunksOf(FlushBuffer(db, meta.id, meta.schema).columnar, meta.id), segments);
    CountRows(TableRows(db.rows, meta.id), meta.schema);
    AggregatePaths(cfg, db, input, meta, [CountStar]);
  }

  lemma CountStarReference(render: Renderer, db: Db, input: PlanNode, meta: TableMeta)
    requires input.Scan? && ScanMeta(db, input) == Success(meta)
    ensures AsOutcome(Evaluate(render, db, Aggregate(input, [CountStar]))) == OneCount(|TableRows(db.rows, meta.id)|)
  {
    CountRows(TableRows(db.rows, meta.id), meta.schema);
    EvaluateAggregate(render, db, input, meta, [CountStar]);
  }

  /** Where some INSERT failed, COUNT(*) over the table is right exactly when every row was published, or
      none was: otherwise it counts the published rows only. */
  lemma CountStarIff(cfg: Config, db: Db, input: PlanNode, meta: TableMeta)
    requires Inv(cfg, db) && input.Scan? && ScanMeta(db, input) == Success(meta)
    requires meta.schema.columns != [] && |TableRows(db.rows, meta.id)| <= I64_MAX
    ensures (Exec(cfg, db, Aggregate(input, [CountStar])).1
             == AsOutcome(Evaluate(cfg.render, db, Aggregate(input, [CountStar])))
             <==> AllPublished(db, meta.id) || Published(db, meta.id) == [])
  {
    var rows, published := TableRows(db.rows, meta.id), Published(db, meta.id);
    CountStarAnswer(cfg, db, input, meta);
    CountStarReference(cfg.render, db, input, meta);
    FewerPublished(IndexedColumn(db, meta.id), rows);
    CountsDiffer(|published|, |rows|);
  }

  // ----- whole plans

  /** Aggregates that may be read off chunks; over an empty table there are none to read. */
  ghost predicate AggregatesSafe(schema: Schema, rows: seq<Row>, aggs: seq<AggExpr>) {
    rows == [] || forall agg :: agg in aggs ==> ChunkSafe(schema, rows, agg)
  }

  /** Where the fast paths may be taken: an index lookup must be a point with a literal whose key no other
      stored id shares, and an aggregate must lie directly over a scan and be safe to read off chunks. */
  ghost predicate FastPathsSafe(db: Db, plan: PlanNode) {
    match plan
    case Scan(_, _) => true
    case Filter(input, pred) =>
      && FastPathsSafe(db, input)
      && (ScanMeta(db, input).Success? ==>
            var t := ScanMeta(db, input).value.id;
            var lookup := FilterLookup(db, input, pred, t);
            lookup.Some? ==> lookup.value.Point? && IsSafe(db, t, lookup.value))
    case Aggregate(input, aggs) =>
      && input.Scan?
      && (ScanMeta(db, input).Success? ==>
            var meta := ScanMeta(db, input).value;
            AggregatesSafe(meta.schema, TableRows(db.rows, meta.id), aggs))
    case Insert(_, _, _) => false
    case CreateTable(_, _, _) => false
    case DropTable(_, _) => false
    case _ => FastPathsSafe(db, plan.input)
  }

  /** No aggregate of the query reads a table with rows that were stored but not published. */
  ghost predicate AggregatesPublished(db: Db, plan: PlanNode) {
    match plan
    case Scan(_, _) => true
    case Aggregate(input, _) => ScanMeta(db, input).Success? ==> AllPublished(db, ScanMeta(db, input).value.id)
    case Insert(_, _, _) => true
    case CreateTable(_, _, _) => true
    case DropTable(_, _) => true
    case _ => AggregatesPublished(db, plan.input)
  }

  ghost predicate IsSafe(db: Db, t: TableId, lookup: IdLookup) {
    && t in db.catalog.byId && ColumnIndex(db.catalog.byId[t].schema, ID).Some?
    && LookupSafe(lookup, TableRows(db.rows, t), ColumnIndex(db.catalog.byId[t].schema, ID).value)
  }

  lemma EvaluateFilter(render: Renderer, db: Db, input: PlanNode, pred: FilterExpr, meta: TableMeta)
    requires input.Scan? && ScanMeta(db, input) == Success(meta)
    ensures Evaluate(render, db, Filter(input, pred))
         == Success(FilterRows(pred, meta.schema, TableRows(db.rows, meta.id)))
  {
    assert Evaluate(render, db, input) == Success(TableRows(db.rows, meta.id));
  }

  /** The two ways a filter directly over a scan is answered. */
  lemma FilterPaths(cfg: Config, db: Db, input: PlanNode, pred: FilterExpr, meta: TableMeta)
    requires input.Scan? && ScanMeta(db, input) == Success(meta)
    ensures
      var lookup := FilterLookup(db, input, pred, meta.id);
      Exec(cfg, db, Filter(input, pred)).1 ==
        if lookup.Some? then AsOutcome(LookupRows(db, meta.id, db.indexes[(meta.id, ID)], lookup.value))
        else Success(Rows(FilterRows(pred, meta.schema, TableRows(db.rows, meta.id))))
  {
    assert Exec(cfg, db, input) == (db, Success(Rows(TableRows(db.rows, meta.id))));
  }

  /** A filter directly over a scan, answered from the index where there is one. */
  lemma FilterOverScan(cfg: Config, db: Db, input: PlanNode, pred: FilterExpr, meta: TableMeta)
    requires RowInv(db) && input.Scan? && ScanMeta(db, input) == Success(meta)
    requires var lookup := FilterLookup(db, input, pred, meta.id);
      lookup.Some? ==> lookup.value.Point? && IsSafe(db, meta.id, lookup.value)
    ensures Exec(cfg, db, Filter(input, pred)).1 == AsOutcome(Evaluate(cfg.render, db, Filter(input, pred)))
  {
    ScannedIsKnown(db, input);
    FilterPaths(cfg, db, input, pred, meta);
    EvaluateFilter(cfg.render, db, input, pred, meta);
    var lookup := FilterLookup(db, input, pred, meta.id);
    if lookup.Some? {
      PointPredicate(pred, lookup.value.v);
      PointIsFilter(db, meta.id, lookup.value.v);
    }
  }

  /** Index and column paths erased: in a session that satisfies the invariant, every supported query
      returns what the reference returns, row for row. */
  lemma {:induction false} ExecRefinesReference(cfg: Config, db: Db, plan: PlanNode)
    requires Inv(cfg, db) && FastPathsSafe(db, plan) && AggregatesPublished(db, plan)
    ensures Exec(cfg, db, plan).1 == AsOutcome(Evaluate(cfg.render, db, plan))
    ensures IsQuery(plan)
  {
    match plan
    case Scan(_, _) =>
    case Filter(input, pred) =>
      if !input.Scan? {
        ExecRefinesReference(cfg, db, input);
      } else if ScanMeta(db, input).Success? {
        FilterOverScan(cfg, db, input, pred, ScanMeta(db, input).value);
      }
    case Aggregate(input, aggs) =>
      if ScanMeta(db, input).Success? {
        AggregateOverScan(cfg, db, input, ScanMeta(db, input).value, aggs);
      }
    case Limit(input, _, _) => ExecRefinesReference(cfg, db, input);
    case Project(input, _) =>
      ExecRefinesReference(cfg, db, input);
      QueryKeepsMeta(cfg, db, input);
    case GroupBy(input, _, _) =>
      ExecRefinesReference(cfg, db, input);
      QueryKeepsMeta(cfg, db, input);
    case OrderBy(input, _) =>
      ExecRefinesReference(cfg, db, input);
      QueryKeepsMeta(cfg, db, input);
    case _ =>
  }

  /** A query still reads the same table after it has run. */
  lemma QueryKeepsMeta(cfg: Config, db: Db, plan: PlanNode)
    requires IsQuery(plan)
    ensures ScanMeta(Exec(cfg, db, plan).0, plan) == ScanMeta(db, plan)
  {
    QueryKeepsData(cfg, db, plan);
    SameScanMeta(db, Exec(cfg, db, plan).0, plan);
  }

  lemma {:induction false} SameScanMeta(db: Db, db': Db, node: PlanNode)
    requires db'.catalog == db.catalog
    ensures ScanMeta(db', node) == ScanMeta(db, node)
  {
    match node
    case Scan(_, _) =>
    case Insert(_, _, _) =>
    case CreateTable(_, _, _) =>
    case DropTable(_, _) =>
    case _ => SameScanMeta(db, db', node.input);
  }

  // ----- aggregates over a filter

  /** Wherever the table has chunks, an aggregate is answered from them whatever lies between it and the scan. */
  lemma AggregateReadsWholeTable(cfg: Config, db: Db, input: PlanNode, meta: TableMeta, aggs: seq<AggExpr>)
    requires ScanMeta(db, input) == Success(meta)
    ensures
      var chunks := ChunksOf(FlushBuffer(db, meta.id, meta.schema).columnar, meta.id);
      chunks != [] ==> Exec(cfg, db, Aggregate(input, aggs)).1 == Success(Rows([ChunkAggregates(chunks, aggs)]))
  {
  }

  lemma CountInput(cfg: Config, db: Db, input: PlanNode, schema: Schema)
    ensures
      var rows := RowsOf(Exec(cfg, db, input).1);
      rows.Success? ==> AggregateInput(cfg, db, input, schema, [CountStar]).1 == Success([Int64(AsI64(|rows.value|))])
  {
    var aggs := [CountStar];
    assert aggs[1..] == [];
    var rows := RowsOf(Exec(cfg, db, input).1);
    if rows.Success? {
      assert RowAggregate(rows.value, schema, aggs[0]) == Success(Int64(AsI64(|rows.value|)));
      assert AggregateInput(cfg, Exec(cfg, db, input).0, input, schema, aggs[1..]).1 == Success([]);
      assert [Int64(AsI64(|rows.value|))] + [] == [Int64(AsI64(|rows.value|))];
    }
  }

  lemma CountOverRows(cfg: Config, db: Db, input: PlanNode, meta: TableMeta, rows: seq<Row>)
    requires ScanMeta(db, input) == Success(meta)
    requires ChunksOf(FlushBuffer(db, meta.id, meta.schema).columnar, meta.id) == []
    requires RowsOf(Exec(cfg, FlushBuffer(db, meta.id, meta.schema), input).1) == Success(rows)
    ensures Exec(cfg, db, Aggregate(input, [CountStar])).1 == OneCount(|rows|)
  {
    CountInput(cfg, FlushBuffer(db, meta.id, meta.schema), input, meta.schema);
  }

  lemma NoChunksIff(cfg: Config, db: Db, meta: TableMeta)
    requires Inv(cfg, db) && Known(db, meta)
    ensures ChunksOf(FlushBuffer(db, meta.id, meta.schema).columnar, meta.id) == [] <==> Published(db, meta.id) == []
  {
    var segments := FlushedChunks(cfg, db, meta.id);
    NonEmptyConcat(segments);
  }

  /** The chunks that an aggregate finds after its flush: none exactly if no row was published. */
  lemma ChunksOfPublished(cfg: Config, db: Db, meta: TableMeta, aggs: seq<AggExpr>)
    requires Inv(cfg, db) && Known(db, meta)
    requires forall agg :: agg in aggs ==> ChunkSafe(meta.schema, Published(db, meta.id), agg)
    ensures
      var chunks := ChunksOf(FlushBuffer(db, meta.id, meta.schema).columnar, meta.id);
      && RowAggregates(Published(db, meta.id), meta.schema, aggs) == Success(ChunkAggregates(chunks, aggs))
      && (chunks == [] <==> Published(db, meta.id) == [])
  {
    var segments := FlushedChunks(cfg, db, meta.id);
    NonEmptyConcat(segments);
    RowAggregatesFromChunks(meta.schema, ChunksOf(FlushBuffer(db, meta.id, meta.schema).columnar, meta.id), segments,
                            aggs);
  }

  /** Whatever lies between an aggregate and its scan, and whatever INSERTs have failed: if any row of the
      table was published, the answer is the aggregate of the published rows. */
  lemma AggregateOfPublished(cfg: Config, db: Db, input: PlanNode, meta: TableMeta, aggs: seq<AggExpr>)
    requires Inv(cfg, db) && ScanMeta(db, input) == Success(meta) && Published(db, meta.id) != []
    requires forall agg :: agg in aggs ==> ChunkSafe(meta.schema, Published(db, meta.id), agg)
    ensures Exec(cfg, db, Aggregate(input, aggs)).1
         == AsOneRow(RowAggregates(Published(db, meta.id), meta.schema, aggs))
  {
    ScannedIsKnown(db, input);
    ChunksOfPublished(cfg, db, meta, aggs);
    AggregateReadsWholeTable(cfg, db, input, meta, aggs);
  }

  /** Aggregates directly over a scan: the chunk path refines the row path. */
  lemma AggregateOverScan(cfg: Config, db: Db, input: PlanNode, meta: TableMeta, aggs: seq<AggExpr>)
    requires Inv(cfg, db) && input.Scan? && ScanMeta(db, input) == Success(meta) && AllPublished(db, meta.id)
    requires AggregatesSafe(meta.schema, TableRows(db.rows, meta.id), aggs)
    ensures Exec(cfg, db, Aggregate(input, aggs)).1 == AsOutcome(Evaluate(cfg.render, db, Aggregate(input, aggs)))
  {
    ScannedIsKnown(db, input);
    if TableRows(db.rows, meta.id) == [] {
      NoChunksIff(cfg, db, meta);
    } else {
      ChunksOfPublished(cfg, db, meta, aggs);
    }
    AggregatePaths(cfg, db, input, meta, aggs);
    EvaluateAggregate(cfg.render, db, input, meta, aggs);
  }

  /** After the flush a filter with a safe fast path still finds what the reference finds. */
  lemma FilterAfterFlush(cfg: Config, db: Db, input: PlanNode, pred: FilterExpr, meta: TableMeta)
    requires Inv(cfg, db) && input.Scan? && ScanMeta(db, input) == Success(meta)
    requires FastPathsSafe(db, Filter(input, pred))
    ensures RowsOf(Exec(cfg, FlushBuffer(db, meta.id, meta.schema), Filter(input, pred)).1)
         == Success(FilterRows(pred, meta.schema, TableRows(db.rows, meta.id)))
  {
    var db' := FlushBuffer(db, meta.id, meta.schema);
    ScannedIsKnown(db, input);
    FlushIsLocal(db, meta.id, meta.schema);
    FlushKeepsRowInv(db, meta.id, meta.schema);
    FilterOverScan(cfg, db', input, pred, meta);
    EvaluateFilter(cfg.render, db', input, pred, meta);
  }

  /** A table without published rows has no chunks to count, so there the filter is carried out and must be
      safe. */
  ghost predicate PublishedOrSafe(db: Db, input: PlanNode, pred: FilterExpr, t: TableId) {
    Published(db, t) != [] || FastPathsSafe(db, Filter(input, pred))
  }

  lemma SafeCount(schema: Schema, rows: seq<Row>)
    requires schema.columns != []
    ensures forall agg :: agg in [CountStar] ==> ChunkSafe(schema, rows, agg)
  {
  }

  lemma CountOfPublished(cfg: Config, db: Db, input: PlanNode, meta: TableMeta)
    requires Inv(cfg, db) && ScanMeta(db, input) == Success(meta) && Published(db, meta.id) != []
    requires meta.schema.columns != []
    ensures Exec(cfg, db, Aggregate(input, [CountStar])).1 == OneCount(|Published(db, meta.id)|)
  {
    SafeCount(meta.schema, Published(db, meta.id));
    AggregateOfPublished(cfg, db, input, meta, [CountStar]);
    CountRows(Published(db, meta.id), meta.schema);
  }

  lemma FilteredCountAnswer(cfg: Config, db: Db, input: PlanNode, pred: FilterExpr, meta: TableMeta)
    requires Inv(cfg, db) && input.Scan? && ScanMeta(db, input) == Success(meta)
    requires meta.schema.columns != [] && PublishedOrSafe(db, input, pred, meta.id)
    ensures Exec(cfg, db, Aggregate(Filter(input, pred), [CountStar])).1 ==
      var published := Published(db, meta.id);
      OneCount(if published != [] then |published| else |FilterRows(pred, meta.schema, TableRows(db.rows, meta.id))|)
  {
    if Published(db, meta.id) != [] {
      CountOfPublished(cfg, db, Filter(input, pred), meta);
    } else {
      ScannedIsKnown(db, input);
      NoChunksIff(cfg, db, meta);
      FilterAfterFlush(cfg, db, input, pred, meta);
      CountOverRows(cfg, db, Filter(input, pred), meta, FilterRows(pred, meta.schema, TableRows(db.rows, meta.id)));
    }
  }

  lemma FilteredCountReference(render: Renderer, db: Db, input: PlanNode, pred: FilterExpr, meta: TableMeta)
    requires input.Scan? && ScanMeta(db, input) == Success(meta)
    ensures AsOutcome(Evaluate(render, db, Aggregate(Filter(input, pred), [CountStar])))
         == OneCount(|FilterRows(pred, meta.schema, TableRows(db.rows, meta.id))|)
  {
    EvaluateFilter(render, db, input, pred, meta);
    CountRows(FilterRows(pred, meta.schema, TableRows(db.rows, meta.id)), meta.schema);
  }

  /** The condition under an aggregate is passed over, so counting under one is right exactly when as many
      rows satisfy it as were published, or none was; and where all were, exactly when all satisfy it. */
  lemma FilteredCountIff(cfg: Config, db: Db, input: PlanNode, pred: FilterExpr, meta: TableMeta)
    requires Inv(cfg, db) && input.Scan? && ScanMeta(db, input) == Success(meta)
    requires meta.schema.columns != [] && |TableRows(db.rows, meta.id)| <= I64_MAX
    requires PublishedOrSafe(db, input, pred, meta.id)
    ensures
      var rows, published := TableRows(db.rows, meta.id), Published(db, meta.id);
      var right := Exec(cfg, db, Aggregate(Filter(input, pred), [CountStar])).1
                     == AsOutcome(Evaluate(cfg.render, db, Aggregate(Filter(input, pred), [CountStar])));
      && (right <==> published == [] || |published| == |FilterRows(pred, meta.schema, rows)|)
      && (AllPublished(db, meta.id) ==>
            (right <==> forall row :: row in rows ==> EvalPredicate(row, pred, meta.schema)))
  {
    var rows, published := TableRows(db.rows, meta.id), Published(db, meta.id);
    FilteredCountAnswer(cfg, db, input, pred, meta);
    FilteredCountReference(cfg.render, db, input, pred, meta);
    AllOrFewer(pred, meta.schema, rows);
    FewerPublished(IndexedColumn(db, meta.id), rows);
    CountsDiffer(|published|, |FilterRows(pred, meta.schema, rows)|);
  }

  lemma AllOrFewer(pred: FilterExpr, schema: Schema, rows: seq<Row>)
    ensures |FilterRows(pred, schema, rows)| <= |rows|
    ensures |FilterRows(pred, schema, rows)| == |rows|
       <==> forall row :: row in rows ==> EvalPredicate(row, pred, schema)
  {
    var p, all := (row: Row) => EvalPredicate(row, pred, schema), (row: Row) => true;
    SelectSameLength(p, all, rows);
    SelectAll(all, rows);
    if forall row :: row in rows ==> EvalPredicate(row, pred, schema) {
      SelectAll(p, rows);
    }
  }

  // ----- clean runs

  /** Every statement of the run succeeds. */
  predicate CleanRun(cfg: Config, db: Db, plans: seq<PlanNode>)
    decreases |plans|
  {
    plans != [] ==> Exec(cfg, db, plans[0]).1.Success? && CleanRun(cfg, Exec(cfg, db, plans[0]).0, plans[1..])
  }

  ghost predicate EveryRowPublished(db: Db) {
    forall t :: t in db.catalog.byId ==> AllPublished(db, t)
  }

  lemma PublishedFrame(db: Db, db': Db, t: TableId)
    requires AllPublished(db, t) && TableRows(db'.rows, t) == TableRows(db.rows, t)
    requires IndexedColumn(db', t) == IndexedColumn(db, t)
    ensures AllPublished(db', t)
  {
  }

  lemma InsertOneKeepsPublished(cfg: Config, db: Db, meta: TableMeta, row: Row)
    requires IdsGivenOut(db.rows) && EveryRowPublished(db) && Known(db, meta)
    requires Publishable(IndexedColumn(db, meta.id), row)
    ensures EveryRowPublished(InsertOne(cfg, db, meta, row).0)
  {
    var db' := InsertOne(cfg, db, meta, row).0;
    InsertIsLocal(cfg, db, meta, row);
    InsertAppends(db.rows, meta.id, row);
    IndexesAfterShape(db, meta, row);
    PublishedAfter(db, db', meta, row);
    forall t | t in db'.catalog.byId ensures AllPublished(db', t) {
      assert AllPublished(db, t);
      if t != meta.id {
        PublishedFrame(db, db', t);
      }
    }
  }

  lemma {:induction false} InsertKeepsPublished(cfg: Config, db: Db, meta: TableMeta, values: seq<Row>, count: nat)
    requires Inv(cfg, db) && EveryRowPublished(db) && Known(db, meta)
    requires InsertFrom(cfg, db, meta, values, count).1.Success?
    ensures EveryRowPublished(InsertFrom(cfg, db, meta, values, count).0)
    decreases |values|
  {
    if values != [] {
      var (db', error) := InsertOne(cfg, db, meta, values[0]);
      InsertKeepsInv(cfg, db, meta, values[0]);
      InsertOneKeepsPublished(cfg, db, meta, values[0]);
      InsertKeepsPublished(cfg, db', meta, values[1..], count + 1);
    }
  }

  lemma CreateKeepsPublished(db: Db, namespace: Option<string>, table: string, columns: seq<(string, ColumnType)>)
    requires Consistent(db.catalog) && TableIdsGivenOut(db) && EveryRowPublished(db)
    ensures EveryRowPublished(CreateNew(db, namespace, table, columns))
  {
    var db' := CreateNew(db, namespace, table, columns);
    CreateIsLocal(db, namespace, table, columns);
    CreateEnters(db.catalog, NamespaceOf(namespace), table, TableSchema(columns), None);
    forall t | t in db'.catalog.byId ensures AllPublished(db', t) {
      if t in db.catalog.byId {
        PublishedFrame(db, db', t);
      }
    }
  }

  lemma DropKeepsPublished(db: Db, namespace: Option<string>, table: string, meta: TableMeta)
    requires IdsGivenOut(db.rows) && EveryRowPublished(db) && FindTable(db, namespace, table) == Success(meta)
    ensures EveryRowPublished(DropExisting(db, namespace, table, meta))
  {
    var db' := DropExisting(db, namespace, table, meta);
    DropIsLocal(db, namespace, table, meta);
    forall t | t in db'.catalog.byId ensures AllPublished(db', t) {
      assert t != meta.id && AllPublished(db, t) && SameTable(db, db', t);
      PublishedFrame(db, db', t);
    }
  }

  lemma QueryKeepsPublished(cfg: Config, db: Db, plan: PlanNode)
    requires EveryRowPublished(db) && IsQuery(plan)
    ensures EveryRowPublished(Exec(cfg, db, plan).0)
  {
    QueryKeepsData(cfg, db, plan);
    var db' := Exec(cfg, db, plan).0;
    forall t | t in db'.catalog.byId ensures AllPublished(db', t) {
      PublishedFrame(db, db', t);
    }
  }

  lemma CleanInsertKeepsPublished(cfg: Config, db: Db, plan: PlanNode)
    requires Inv(cfg, db) && EveryRowPublished(db) && plan.Insert? && Exec(cfg, db, plan).1.Success?
    ensures EveryRowPublished(Exec(cfg, db, plan).0)
  {
    FoundIsKnown(db, plan.namespace, plan.table);
    InsertKeepsPublished(cfg, db, FindTable(db, plan.namespace, plan.table).value, plan.values, 0);
  }

  lemma DropStatement(cfg: Config, db: Db, plan: PlanNode)
    requires plan.DropTable? && Exec(cfg, db, plan).1.Success?
    ensures
      var meta := FindTable(db, plan.namespace, plan.table);
      meta.Success? && Exec(cfg, db, plan).0 == DropExisting(db, plan.namespace, plan.table, meta.value)
  {
  }

  lemma CleanDropKeepsPublished(cfg: Config, db: Db, plan: PlanNode)
    requires Inv(cfg, db) && EveryRowPublished(db) && plan.DropTable? && Exec(cfg, db, plan).1.Success?
    ensures EveryRowPublished(Exec(cfg, db, plan).0)
  {
    DropStatement(cfg, db, plan);
    DropKeepsPublished(db, plan.namespace, plan.table, FindTable(db, plan.namespace, plan.table).value);
  }

  lemma StatementsYieldRows(cfg: Config, db: Db, plan: PlanNode)
    requires !plan.Insert? && !plan.CreateTable? && !plan.DropTable? && Exec(cfg, db, plan).1.Success?
    ensures RowsOf(Exec(cfg, db, plan).1).Success?
  {
  }

  lemma CleanStepKeepsPublished(cfg: Config, db: Db, plan: PlanNode)
    requires Inv(cfg, db) && EveryRowPublished(db) && Exec(cfg, db, plan).1.Success?
    ensures EveryRowPublished(Exec(cfg, db, plan).0)
  {
    if plan.Insert? {
      CleanInsertKeepsPublished(cfg, db, plan);
    } else if plan.CreateTable? {
      CreateKeepsPublished(db, plan.namespace, plan.table, plan.columns);
    } else if plan.DropTable? {
      CleanDropKeepsPublished(cfg, db, plan);
    } else {
      StatementsYieldRows(cfg, db, plan);
      RowsComeFromQueries(cfg, db, plan);
      QueryKeepsPublished(cfg, db, plan);
    }
  }

  lemma {:induction false} CleanRunKeepsPublished(cfg: Config, db: Db, plans: seq<PlanNode>)
    requires cfg.chunkSize > 0 && Inv(cfg, db) && EveryRowPublished(db) && CleanRun(cfg, db, plans)
    ensures Inv(cfg, Run(cfg, db, plans)) && EveryRowPublished(Run(cfg, db, plans))
    decreases |plans|
  {
    if plans != [] {
      CleanStepKeepsPublished(cfg, db, plans[0]);
      ExecKeepsInv(cfg, db, plans[0]);
      CleanRunKeepsPublished(cfg, Exec(cfg, db, plans[0]).0, plans[1..]);
    }
  }

  lemma {:induction false} EveryAggregatePublished(db: Db, plan: PlanNode)
    requires Consistent(db.catalog) && EveryRowPublished(db)
    ensures AggregatesPublished(db, plan)
  {
    match plan
    case Aggregate(input, _) =>
      if ScanMeta(db, input).Success? {
        ScannedIsKnown(db, input);
      }
    case Filter(input, _) => EveryAggregatePublished(db, input);
    case Project(input, _) => EveryAggregatePublished(db, input);
    case GroupBy(input, _, _) => EveryAggregatePublished(db, input);
    case OrderBy(input, _) => EveryAggregatePublished(db, input);
    case Limit(input, _, _) => EveryAggregatePublished(db, input);
    case _ =>
  }

  /** The main theorem. From a fresh or just loaded session, after any run of statements that all succeed,
      a query whose fast paths are safe returns exactly the rows that plain evaluation over the scans
      returns, wherever chunks happened to end and whichever copy of the rows was read. */
  lemma CleanRunsRefineReference(cfg: Config, catalog: CatalogState, plans: seq<PlanNode>, query: PlanNode)
    requires ValidConfig(cfg) && Consistent(catalog) && CleanRun(cfg, NewSession(catalog), plans)
    requires FastPathsSafe(Run(cfg, NewSession(catalog), plans), query)
    ensures
      var db := Run(cfg, NewSession(catalog), plans);
      Exec(cfg, db, query).1 == AsOutcome(Evaluate(cfg.render, db, query))
  {
    var start := NewSession(catalog);
    NewSessionInv(cfg, catalog);
    forall t | t in start.catalog.byId ensures AllPublished(start, t) {
      UnusedTableIsEmpty(start.rows, t);
    }
    CleanRunKeepsPublished(cfg, start, plans);
    var db := Run(cfg, start, plans);
    EveryAggregatePublished(db, query);
    ExecRefinesReference(cfg, db, query);
  }
}
