/** The session as a value, and what executing a plan does to it. */
module Engine {
  import opened Aggregates
  import opened BTreeIndexes
  import opened Catalogs
  import opened Columnar
  import opened Grouping
  import opened IndexKeys
  import opened Plans
  import opened RowOrder
  import opened Schemas
  import opened Seqs
  import opened Sorting
  import opened TableStores
  import opened Values
  import Lex

  /** The chunk size and the rendering of values are left open. */
  datatype Config = Config(chunkSize: nat, render: Renderer)

  ghost predicate ValidConfig(cfg: Config) {
    cfg.chunkSize > 0 && Faithful(cfg.render)
  }

  datatype Db = Db(
    catalog: CatalogState,
    rows: RowState,
    columnar: ColumnarState,
    indexes: map<(TableId, string), IndexMap>,
    buffer: map<TableId, seq<Row>>)

  /** A session over a catalog, with nothing stored yet. */
  function NewSession(catalog: CatalogState): Db {
    Db(catalog, NO_ROWS, NO_CHUNKS, map[], map[])
  }

  datatype Outcome = Rows(rows: seq<Row>) | RowsAffected(count: nat)

  const ID := "id"

  function FindTable(db: Db, namespace: Option<string>, table: string): Result<TableMeta> {
    match LookupTable(db.catalog, NamespaceOf(namespace), table)
    case Some(meta) => Success(meta)
    case None => Failure(TableNotFound(NamespaceOf(namespace), table))
  }

  // ----- the columnar buffer

  function BufferOf(db: Db, t: TableId): seq<Row> {
    if t in db.buffer then db.buffer[t] else []
  }

  /** Turns a batch of rows into the table's next chunk. */
  function Publish(db: Db, t: TableId, schema: Schema, batch: seq<Row>): Db {
    var id := db.columnar.nextChunkId;
    db.(columnar := AddChunk(db.columnar.(nextChunkId := id + 1), t, NewChunk(id, Transpose(schema, batch))))
  }

  function FlushBuffer(db: Db, t: TableId, schema: Schema): Db {
    if BufferOf(db, t) == [] then db
    else Publish(db.(buffer := db.buffer[t := []]), t, schema, BufferOf(db, t))
  }

  function PushRow(cfg: Config, db: Db, t: TableId, schema: Schema, row: Row): Db {
    var batch := BufferOf(db, t) + [row];
    if |batch| < cfg.chunkSize then db.(buffer := db.buffer[t := batch])
    else Publish(db.(buffer := db.buffer[t := []]), t, schema, batch)
  }

  // ----- statements that change tables

  /** The cell to be indexed, if the table has an index and the row is long enough. */
  function IdCell(db: Db, meta: TableMeta, row: Row): (v: Option<Value>)
    ensures v.Some? ==> (meta.id, ID) in db.indexes
  {
    match ColumnIndex(meta.schema, ID)
    case Some(c) => if (meta.id, ID) in db.indexes then Cell(row, c) else None
    case None => None
  }

  /** The indexes once a row has its posting under its row id. */
  function PostRow(db: Db, meta: TableMeta, rid: RowId, row: Row): Result<map<(TableId, string), IndexMap>> {
    match IdCell(db, meta, row)
    case None => Success(db.indexes)
    case Some(v) =>
      var key :- FromValue(v);
      Success(db.indexes[(meta.id, ID) := AddPosting(db.indexes[(meta.id, ID)], key, rid)])
  }

  /** The same for a row about to get the next row id. */
  function IndexRow(db: Db, meta: TableMeta, row: Row): Result<map<(TableId, string), IndexMap>> {
    PostRow(db, meta, db.rows.next, row)
  }

  /** One row of an INSERT: stored, indexed if the table has an index, then pushed to the buffer. A cell
      under `id` that cannot be indexed stops it after the row is stored. */
  function InsertOne(cfg: Config, db: Db, meta: TableMeta, row: Row): (Db, Option<Error>) {
    var stored := db.(rows := InsertRow(db.rows, meta.id, row));
    match IndexRow(db, meta, row)
    case Failure(e) => (stored, Some(e))
    case Success(indexes) => (PushRow(cfg, stored.(indexes := indexes), meta.id, meta.schema, row), None)
  }

  function InsertFrom(cfg: Config, db: Db, meta: TableMeta, values: seq<Row>, count: nat): (Db, Result<Outcome>)
    decreases |values|
  {
    if values == [] then (db, Success(RowsAffected(count)))
    else
      var (db', error) := InsertOne(cfg, db, meta, values[0]);
      match error
      case Some(e) => (db', Failure(e))
      case None => InsertFrom(cfg, db', meta, values[1..], count + 1)
  }

  function TableSchema(columns: seq<(string, ColumnType)>): Schema {
    NewSchema(Map((c: (string, ColumnType)) => Column(c.0, c.1, true), columns))
  }

  function CreateNew(db: Db, namespace: Option<string>, table: string, columns: seq<(string, ColumnType)>): Db {
    var (ns, schema) := (NamespaceOf(namespace), TableSchema(columns));
    var meta := NewMeta(db.catalog, ns, table, schema, None);
    db.(catalog := WithTable(db.catalog, ns, table, schema, None),
        indexes := if ColumnIndex(schema, ID).Some? then db.indexes[(meta.id, ID) := map[]] else db.indexes)
  }

  /** Dropping removes rows, chunks, indexes and the catalog entry; the buffer stays. */
  function DropExisting(db: Db, namespace: Option<string>, table: string, meta: TableMeta): Db {
    db.(catalog := WithoutTable(db.catalog, NamespaceOf(namespace), table),
        rows := DropRows(db.rows, meta.id),
        columnar := DropChunks(db.columnar, meta.id),
        indexes := map k | k in db.indexes && k.0 != meta.id :: db.indexes[k])
  }

  // ----- operators on rows

  function FilterRows(pred: FilterExpr, schema: Schema, rows: seq<Row>): seq<Row> {
    Select((row: Row) => EvalPredicate(row, pred, schema), rows)
  }

  /** The named cells of a row; a name or cell that is not there is left out. */
  function ProjectRow(names: seq<string>, schema: Schema, row: Row): Row {
    if names == [] then []
    else
      var before := ProjectRow(names[..|names| - 1], schema, row);
      match NamedCell(row, schema, names[|names| - 1])
      case Some(v) => before + [v]
      case None => before
  }

  function ProjectRows(names: seq<string>, schema: Schema, rows: seq<Row>): seq<Row> {
    Map((row: Row) => ProjectRow(names, schema, row), rows)
  }

  function LimitRows(limit: nat, offset: nat, rows: seq<Row>): seq<Row> {
    var skip := if offset < |rows| then offset else |rows|;
    var take := if limit < |rows| - skip then limit else |rows| - skip;
    rows[skip..][..take]
  }

  function Indices(schema: Schema, names: seq<string>): Result<seq<nat>> {
    if names == [] then Success([])
    else
      match ColumnIndex(schema, names[0])
      case None => Failure(ColumnNotFound(names[0]))
      case Some(i) =>
        var rest :- Indices(schema, names[1..]);
        Success([i] + rest)
  }

  function OrderIndices(schema: Schema, order: seq<(string, bool)>): Result<seq<(nat, bool)>> {
    if order == [] then Success([])
    else
      match ColumnIndex(schema, order[0].0)
      case None => Failure(ColumnNotFound(order[0].0))
      case Some(i) =>
        var rest :- OrderIndices(schema, order[1..]);
        Success([(i, order[0].1)] + rest)
  }

  function OrderRows(schema: Schema, order: seq<(string, bool)>, rows: seq<Row>): Result<seq<Row>> {
    var indices :- OrderIndices(schema, order);
    Success(StableSort(Before(indices), rows))
  }

  function RowAggregates(rows: seq<Row>, schema: Schema, aggs: seq<AggExpr>): Result<seq<Value>> {
    if aggs == [] then Success([])
    else
      var v :- RowAggregate(rows, schema, aggs[0]);
      var rest :- RowAggregates(rows, schema, aggs[1..]);
      Success([v] + rest)
  }

  function ChunkAggregates(chunks: seq<ColumnarChunk>, aggs: seq<AggExpr>): Row {
    Map((agg: AggExpr) => ChunkAggregate(chunks, agg), aggs)
  }

  /** One row per group, in the order of the rendered keys: the key cells, then the aggregates. */
  function GroupResults(schema: Schema, aggs: seq<AggExpr>, groups: Groups, keys: seq<Lex.Key>): Result<seq<Row>>
    requires forall k :: k in keys ==> k in groups
  {
    if keys == [] then Success([])
    else
      var values :- RowAggregates(groups[keys[0]].1, schema, aggs);
      var rest :- GroupResults(schema, aggs, groups, keys[1..]);
      Success([groups[keys[0]].0 + values] + rest)
  }

  function GroupByRows(render: Renderer, schema: Schema, keys: seq<string>, aggs: seq<AggExpr>, rows: seq<Row>)
    : Result<seq<Row>>
  {
    var indices :- Indices(schema, keys);
    var groups := GroupRows(render, indices, rows);
    GroupResults(schema, aggs, groups, Lex.Sorted(groups.Keys))
  }

  // ----- execution

  /** The rows an index answers with, in the order of its postings; ids no longer stored are skipped. */
  function LookupRows(db: Db, t: TableId, index: IndexMap, lookup: IdLookup): Result<seq<Row>> {
    match lookup
    case Point(v) =>
      var key :- FromValue(v);
      Success(Fetch(db.rows.data, t, Postings(index, key)))
    case RangeInclusive(low, high) =>
      var start :- FromValue(low);
      var end :- FromValue(high);
      if Lex.Lt(end, start) then Failure(Panicked)
      else Success(Fetch(db.rows.data, t, RangeIds(index, start, end)))
  }

  /** The table that a chain of query nodes reads. */
  function ScanMeta(db: Db, node: PlanNode): Result<TableMeta> {
    match node
    case Scan(table, namespace) => FindTable(db, namespace, table)
    case Filter(input, _) => ScanMeta(db, input)
    case Project(input, _) => ScanMeta(db, input)
    case Limit(input, _, _) => ScanMeta(db, input)
    case Aggregate(input, _) => ScanMeta(db, input)
    case GroupBy(input, _, _) => ScanMeta(db, input)
    case OrderBy(input, _) => ScanMeta(db, input)
    case _ => Failure(ExpectedScan)
  }

  function RowsOf(r: Result<Outcome>): Result<seq<Row>> {
    match r
    case Success(Rows(rows)) => Success(rows)
    case Success(RowsAffected(_)) => Failure(ExpectedRows)
    case Failure(e) => Failure(e)
  }

  function AsOutcome(r: Result<seq<Row>>): Result<Outcome> {
    match r
    case Success(rows) => Success(Rows(rows))
    case Failure(e) => Failure(e)
  }

  /** The lookup that replaces a filter directly over an indexed scan. */
  function FilterLookup(db: Db, input: PlanNode, pred: FilterExpr, t: TableId): (lookup: Option<IdLookup>)
    ensures lookup.Some? ==> (t, ID) in db.indexes
  {
    if input.Scan? && (t, ID) in db.indexes then PredicateToLookup(pred, ID) else None
  }

  function Filtered(pred: FilterExpr, schema: Schema, r: Result<Outcome>): Result<Outcome> {
    var rows :- RowsOf(r);
    Success(Rows(FilterRows(pred, schema, rows)))
  }

  function Limited(limit: nat, offset: nat, r: Result<Outcome>): Result<Outcome> {
    var rows :- RowsOf(r);
    Success(Rows(LimitRows(limit, offset, rows)))
  }

  function AsOneRow(r: Result<Row>): Result<Outcome> {
    var row :- r;
    Success(Rows([row]))
  }

  /** Project, GroupBy and OrderBy read their input's rows and then its schema. */
  function OverSchema(render: Renderer, plan: PlanNode, r: Result<Outcome>, meta: Result<TableMeta>): Result<Outcome>
    requires plan.Project? || plan.GroupBy? || plan.OrderBy?
  {
    var rows :- RowsOf(r);
    var m :- meta;
    match plan
    case Project(_, names) => Success(Rows(ProjectRows(names, m.schema, rows)))
    case GroupBy(_, keys, aggs) => AsOutcome(GroupByRows(render, m.schema, keys, aggs, rows))
    case OrderBy(_, order) => AsOutcome(OrderRows(m.schema, order, rows))
  }

  function Exec(cfg: Config, db: Db, plan: PlanNode): (Db, Result<Outcome>)
    decreases plan, 0
  {
    match plan
    case Scan(table, namespace) =>
      (db, match FindTable(db, namespace, table) {
             case Success(meta) => Success(Rows(TableRows(db.rows, meta.id)))
             case Failure(e) => Failure(e)
           })
    case Filter(input, pred) =>
      (match ScanMeta(db, input)
       case Failure(e) => (db, Failure(e))
       case Success(meta) =>
         var lookup := FilterLookup(db, input, pred, meta.id);
         if lookup.Some? then (db, AsOutcome(LookupRows(db, meta.id, db.indexes[(meta.id, ID)], lookup.value)))
         else var (db', r) := Exec(cfg, db, input); (db', Filtered(pred, meta.schema, r)))
    case Limit(input, limit, offset) =>
      var (db', r) := Exec(cfg, db, input);
      (db', Limited(limit, offset, r))
    case Aggregate(input, aggs) =>
      (match ScanMeta(db, input)
       case Failure(e) => (db, Failure(e))
       case Success(meta) =>
         var db' := FlushBuffer(db, meta.id, meta.schema);
         var chunks := ChunksOf(db'.columnar, meta.id);
         if chunks == [] then var (db'', r) := AggregateInput(cfg, db', input, meta.schema, aggs); (db'', AsOneRow(r))
         else (db', Success(Rows([ChunkAggregates(chunks, aggs)]))))
    case Insert(table, namespace, values) =>
      (match FindTable(db, namespace, table)
       case Failure(e) => (db, Failure(e))
       case Success(meta) => InsertFrom(cfg, db, meta, values, 0))
    case CreateTable(table, namespace, columns) =>
      (CreateNew(db, namespace, table, columns), Success(RowsAffected(0)))
    case DropTable(table, namespace) =>
      (match FindTable(db, namespace, table)
       case Failure(e) => (db, Failure(e))
       case Success(meta) => (DropExisting(db, namespace, table, meta), Success(RowsAffected(0))))
    case _ =>
      var (db', r) := Exec(cfg, db, plan.input);
      (db', OverSchema(cfg.render, plan, r, ScanMeta(db', plan.input)))
  }

  /** Without chunks each aggregate runs the input again. */
  function AggregateInput(cfg: Config, db: Db, input: PlanNode, schema: Schema, aggs: seq<AggExpr>)
    : (Db, Result<seq<Value>>)
    decreases input, |aggs| + 1
  {
    if aggs == [] then (db, Success([]))
    else
      var (db', r) := Exec(cfg, db, input);
      match RowsOf(r)
      case Failure(e) => (db', Failure(e))
      case Success(rows) =>
        match RowAggregate(rows, schema, aggs[0])
        case Failure(e) => (db', Failure(e))
        case Success(v) =>
          var (db'', rest) := AggregateInput(cfg, db', input, schema, aggs[1..]);
          (db'', match rest { case Success(vs) => Success([v] + vs) case Failure(e) => Failure(e) })
  }

  /** Executing statements one after another, each to its result or its error. */
  function Run(cfg: Config, db: Db, plans: seq<PlanNode>): Db
    decreases |plans|
  {
    if plans == [] then db else Run(cfg, Exec(cfg, db, plans[0]).0, plans[1..])
  }
}
