/** From a parsed SELECT to its plan, and what the SELECT says of the table's rows. */
module Planner {
  import opened Catalogs
  import opened Engine
  import opened Grouping
  import opened Plans
  import opened ProjectedOrder
  import opened RangeRefinement
  import opened Refinement
  import opened RowOrder
  import opened Schemas
  import opened Seqs
  import opened Sorting
  import opened TableStores
  import opened Values
  import opened Where

  const U64_MAX: nat := 0xffff_ffff_ffff_ffff

  datatype Relation = Table(parts: seq<string>) | OtherRelation

  datatype SelectItem = UnnamedExpr(e: Expr) | OtherItem

  datatype GroupTerms = Expressions(exprs: seq<Expr>) | AllColumns

  datatype OrderTerm = OrderTerm(e: Expr, asc: Option<bool>)

  datatype Body =
    | SelectFrom(from: seq<Relation>, selection: Option<Expr>, groupBy: GroupTerms, projection: seq<SelectItem>)
    | OtherBody

  datatype Query = Query(body: Body, orderBy: seq<OrderTerm>, limit: Option<nat>, offset: Option<nat>)

  // ----- names and lists

  function JoinDots(parts: seq<string>): string {
    if parts == [] then "" else if |parts| == 1 then parts[0] else parts[0] + "." + JoinDots(parts[1..])
  }

  /** The first part of a longer name is the namespace. */
  function TableParts(parts: seq<string>): (Option<string>, string) {
    if |parts| >= 2 then (Some(parts[0]), JoinDots(parts[1..]))
    else if |parts| == 1 then (None, parts[0])
    else (None, "")
  }

  function FirstColumn(args: seq<FunctionArg>): Result<string> {
    if args != [] && args[0].ColumnArg? then Success(args[0].column) else Failure(Unsupported)
  }

  function ToAgg(f: FunctionCall): Result<AggExpr> {
    if f.name == "COUNT" && f.args != [] && f.args[0].WildcardArg? then Success(CountStar)
    else
      var c :- FirstColumn(f.args);
      if f.name == "SUM" then Success(Sum(c))
      else if f.name == "COUNT" then Success(Count(c))
      else if f.name == "AVG" then Success(Avg(c))
      else if f.name == "MIN" then Success(Min(c))
      else if f.name == "MAX" then Success(Max(c))
      else Failure(Unsupported)
  }

  predicate IsAggregate(item: SelectItem) {
    item.UnnamedExpr? && item.e.Call? && ToAgg(item.e.f).Success?
  }

  function AggsOf(items: seq<SelectItem>): seq<AggExpr> {
    if items == [] then []
    else
      var before, last := AggsOf(items[..|items| - 1]), items[|items| - 1];
      if IsAggregate(last) then before + [ToAgg(last.e.f).value] else before
  }

  predicate OnlyAggregates(items: seq<SelectItem>) {
    items != [] && forall item :: item in items ==> IsAggregate(item)
  }

  /** With GROUP BY, an item is a grouping column or an aggregate. */
  predicate MayBeGrouped(keys: seq<string>, item: SelectItem) {
    item.UnnamedExpr? && (if item.e.Identifier? then item.e.name in keys else IsAggregate(item))
  }

  predicate AllGrouped(keys: seq<string>, items: seq<SelectItem>) {
    forall item :: item in items ==> MayBeGrouped(keys, item)
  }

  /** The column names in a list of expressions; other expressions are left out. */
  function NamesOf(exprs: seq<Expr>): seq<string> {
    if exprs == [] then []
    else
      var before, last := NamesOf(exprs[..|exprs| - 1]), exprs[|exprs| - 1];
      if last.Identifier? then before + [last.name] else before
  }

  function ItemNames(items: seq<SelectItem>): seq<string> {
    if items == [] then []
    else
      var before, last := ItemNames(items[..|items| - 1]), items[|items| - 1];
      if last.UnnamedExpr? && last.e.Identifier? then before + [last.e.name] else before
  }

  function OrderOf(terms: seq<OrderTerm>): seq<(string, bool)> {
    if terms == [] then []
    else
      var before, last := OrderOf(terms[..|terms| - 1]), terms[|terms| - 1];
      if last.e.Identifier? && last.e.name != "" then
        before + [(last.e.name, if last.asc.Some? then last.asc.value else true)]
      else before
  }

  // ----- the plan, clause by clause

  function FilterPlan(root: PlanNode, selection: Option<Expr>): Result<PlanNode> {
    match selection
    case None => Success(root)
    case Some(e) =>
      var pred :- ToFilter(e);
      Success(Filter(root, pred))
  }

  function ListPlan(root: PlanNode, keys: seq<string>, items: seq<SelectItem>): Result<PlanNode> {
    if keys != [] then
      if AllGrouped(keys, items) then Success(GroupBy(root, keys, AggsOf(items))) else Failure(Unsupported)
    else if OnlyAggregates(items) then Success(Aggregate(root, AggsOf(items)))
    else if ItemNames(items) != [] then Success(Project(root, ItemNames(items)))
    else Success(root)
  }

  function OrderPlan(root: PlanNode, order: seq<(string, bool)>): PlanNode {
    if order == [] then root else OrderBy(root, order)
  }

  function LimitPlan(root: PlanNode, limit: nat, offset: nat): PlanNode {
    if limit == U64_MAX && offset == 0 then root else Limit(root, limit, offset)
  }

  function OrElse(n: Option<nat>, default: nat): nat {
    match n case Some(x) => x case None => default
  }

  function QueryPlan(q: Query): Result<PlanNode> {
    if q.body.OtherBody? || q.body.from == [] || q.body.from[0].OtherRelation? || q.body.groupBy.AllColumns? then
      Failure(Unsupported)
    else
      var (namespace, table) := TableParts(q.body.from[0].parts);
      var filtered :- FilterPlan(Scan(table, namespace), q.body.selection);
      var listed :- ListPlan(filtered, NamesOf(q.body.groupBy.exprs), q.body.projection);
      Success(LimitPlan(OrderPlan(listed, OrderOf(q.orderBy)), OrElse(q.limit, U64_MAX), OrElse(q.offset, 0)))
  }

  // ----- the planner's loops

  lemma FrontOf<T>(s: seq<T>, k: nat)
    requires k < |s|
    ensures s[..k + 1][..|s[..k + 1]| - 1] == s[..k]
  {
  }

  method ProjectionAsAggs(projection: seq<SelectItem>) returns (r: Option<seq<AggExpr>>)
    ensures r == if OnlyAggregates(projection) then Some(AggsOf(projection)) else None
  {
    var aggs := [];
    for k := 0 to |projection|
      invariant aggs == AggsOf(projection[..k])
      invariant forall j :: 0 <= j < k ==> IsAggregate(projection[j])
    {
      FrontOf(projection, k);
      var item := projection[k];
      assert item in projection;
      if item.OtherItem? || !item.e.Call? { return None; }
      var agg := ToAgg(item.e.f);
      if agg.Failure? { return None; }
      aggs := aggs + [agg.value];
    }
    assert projection[..|projection|] == projection;
    r := if projection == [] then None else Some(aggs);
  }

  method ProjectionAsAggsWithGroup(projection: seq<SelectItem>, keys: seq<string>) returns (r: Result<seq<AggExpr>>)
    ensures r == if AllGrouped(keys, projection) then Success(AggsOf(projection)) else Failure(Unsupported)
  {
    var aggs := [];
    for k := 0 to |projection|
      invariant aggs == AggsOf(projection[..k])
      invariant forall j :: 0 <= j < k ==> MayBeGrouped(keys, projection[j])
    {
      FrontOf(projection, k);
      var item := projection[k];
      assert item in projection;
      if item.OtherItem? { return Failure(Unsupported); }
      match item.e {
        case Identifier(name) =>
          if name !in keys { return Failure(Unsupported); }
        case Call(f) =>
          var agg := ToAgg(f);
          if agg.Failure? { return Failure(Unsupported); }
          aggs := aggs + [agg.value];
        case _ => return Failure(Unsupported);
      }
    }
    assert projection[..|projection|] == projection;
    r := Success(aggs);
  }

  /** Builds the plan from the scan upwards. */
  method QueryToPlan(q: Query) returns (r: Result<PlanNode>)
    ensures r == QueryPlan(q)
  {
    if q.body.OtherBody? || q.body.from == [] || q.body.from[0].OtherRelation? { return Failure(Unsupported); }
    var (namespace, table) := TableParts(q.body.from[0].parts);
    var root := Scan(table, namespace);
    if q.body.selection.Some? {
      var pred := ToFilter(q.body.selection.value);
      if pred.Failure? {
        TranslationError(q.body.selection.value);
        return Failure(pred.error);
      }
      root := Filter(root, pred.value);
    }
    if q.body.groupBy.AllColumns? { return Failure(Unsupported); }
    var keys := NamesOf(q.body.groupBy.exprs);
    if keys != [] {
      var aggs := ProjectionAsAggsWithGroup(q.body.projection, keys);
      if aggs.Failure? { return Failure(aggs.error); }
      root := GroupBy(root, keys, aggs.value);
    } else {
      var aggs := ProjectionAsAggs(q.body.projection);
      var names := ItemNames(q.body.projection);
      if aggs.Some? {
        root := Aggregate(root, aggs.value);
      } else if names != [] {
        root := Project(root, names);
      }
    }
    var order := OrderOf(q.orderBy);
    if order != [] {
      root := OrderBy(root, order);
    }
    var limit, offset := OrElse(q.limit, U64_MAX), OrElse(q.offset, 0);
    if limit != U64_MAX || offset != 0 {
      root := Limit(root, limit, offset);
    }
    r := Success(root);
  }

  lemma {:induction false} TranslationError(e: Expr)
    ensures ToFilter(e).Failure? ==> ToFilter(e) == Failure(Unsupported)
  {
    match e
    case Binary(l, _, r) =>
      TranslationError(l);
      TranslationError(r);
    case Nested(inner) => TranslationError(inner);
    case _ =>
  }

  // ----- what a SELECT says

  function KeptRows(selection: Option<Expr>, schema: Schema, rows: seq<Row>): seq<Row> {
    Select((row: Row) => selection.Some? ==> Truth(selection.value, row, schema), rows)
  }

  function Window(limit: nat, offset: nat, rows: seq<Row>): seq<Row> {
    if limit == U64_MAX && offset == 0 then rows else LimitRows(limit, offset, rows)
  }

  /** The rows that satisfy the WHERE clause, grouped or aggregated, or else ordered by their own cells and
      only then projected; and of these the window asked for. */
  function Answer(render: Renderer, schema: Schema, stored: seq<Row>, q: Query): Result<seq<Row>>
    requires q.body.SelectFrom? && q.body.groupBy.Expressions?
  {
    var kept := KeptRows(q.body.selection, schema, stored);
    var (keys, items) := (NamesOf(q.body.groupBy.exprs), q.body.projection);
    var listed :-
      if keys != [] then GroupByRows(render, schema, keys, AggsOf(items), kept)
      else if OnlyAggregates(items) then AsRow(RowAggregates(kept, schema, AggsOf(items)))
      else OrderedList(schema, OrderOf(q.orderBy), ItemNames(items), kept);
    Success(Window(OrElse(q.limit, U64_MAX), OrElse(q.offset, 0), listed))
  }

  function AsRow(r: Result<Row>): Result<seq<Row>> {
    var row :- r;
    Success([row])
  }

  function OrderedList(schema: Schema, order: seq<(string, bool)>, names: seq<string>, rows: seq<Row>)
    : Result<seq<Row>>
  {
    var ordered :- OrderRows(schema, order, rows);
    Success(if names == [] then ordered else ProjectRows(names, schema, ordered))
  }

  function Meaning(render: Renderer, db: Db, q: Query): Result<seq<Row>>
    requires QueryPlan(q).Success?
  {
    var (namespace, table) := TableParts(q.body.from[0].parts);
    var meta :- FindTable(db, namespace, table);
    Answer(render, meta.schema, TableRows(db.rows, meta.id), q)
  }

  /** Groups and aggregates come unordered, and a projection leaves the ordering columns where the table has them. */
  predicate OrderSurvives(schema: Schema, stored: seq<Row>, q: Query)
    requires q.body.SelectFrom? && q.body.groupBy.Expressions?
  {
    var (order, items) := (OrderOf(q.orderBy), q.body.projection);
    order != [] ==>
      && NamesOf(q.body.groupBy.exprs) == [] && !OnlyAggregates(items)
      && (ItemNames(items) != [] && OrderIndices(schema, order).Success? ==>
            PositionsKept(ItemNames(items), schema, OrderIndices(schema, order).value,
                          KeptRows(q.body.selection, schema, stored)))
  }

  /** Comparisons have their columns on the left, and the ordering survives the projection. */
  predicate ReadsAsWritten(db: Db, q: Query)
    requires QueryPlan(q).Success?
  {
    var (namespace, table) := TableParts(q.body.from[0].parts);
    && (q.body.selection.Some? ==> ColumnsOnLeft(q.body.selection.value))
    && (FindTable(db, namespace, table).Success? ==>
          var meta := FindTable(db, namespace, table).value;
          OrderSurvives(meta.schema, TableRows(db.rows, meta.id), q))
  }

  // ----- the plan means what the SELECT says

  lemma FilterPlanMeans(render: Renderer, db: Db, scan: PlanNode, selection: Option<Expr>, meta: TableMeta)
    requires scan.Scan? && ScanMeta(db, scan) == Success(meta) && FilterPlan(scan, selection).Success?
    requires selection.Some? ==> ColumnsOnLeft(selection.value)
    ensures var plan := FilterPlan(scan, selection).value;
      && ScanMeta(db, plan) == Success(meta)
      && Evaluate(render, db, plan) == Success(KeptRows(selection, meta.schema, TableRows(db.rows, meta.id)))
  {
    var stored := TableRows(db.rows, meta.id);
    var p := (row: Row) => selection.Some? ==> Truth(selection.value, row, meta.schema);
    match selection
    case None => SelectAll(p, stored);
    case Some(e) =>
      var pred := ToFilter(e).value;
      EvaluateFilter(render, db, scan, pred, meta);
      var f := (row: Row) => EvalPredicate(row, pred, meta.schema);
      forall row | row in stored ensures f(row) == p(row) {
        TranslationPreservesTruth(e, row, meta.schema);
      }
      SelectAgrees(f, p, stored);
  }

  /** What the list of columns, groups or aggregates makes of rows. */
  function Listed(render: Renderer, schema: Schema, keys: seq<string>, items: seq<SelectItem>, rows: seq<Row>)
    : Result<seq<Row>>
  {
    if keys != [] then GroupByRows(render, schema, keys, AggsOf(items), rows)
    else if OnlyAggregates(items) then AsRow(RowAggregates(rows, schema, AggsOf(items)))
    else if ItemNames(items) != [] then Success(ProjectRows(ItemNames(items), schema, rows))
    else Success(rows)
  }

  lemma ListPlanMeans(render: Renderer, db: Db, root: PlanNode, keys: seq<string>, items: seq<SelectItem>,
                      meta: TableMeta, rows: seq<Row>)
    requires ScanMeta(db, root) == Success(meta) && Evaluate(render, db, root) == Success(rows)
    requires ListPlan(root, keys, items).Success?
    ensures var plan := ListPlan(root, keys, items).value;
      && ScanMeta(db, plan) == Success(meta)
      && Evaluate(render, db, plan) == Listed(render, meta.schema, keys, items, rows)
  {
    if keys != [] {
      GroupByMeans(render, db, root, keys, AggsOf(items), meta, rows);
    } else if OnlyAggregates(items) {
      AggregateMeans(render, db, root, AggsOf(items), meta, rows);
    }
  }

  lemma GroupByMeans(render: Renderer, db: Db, root: PlanNode, keys: seq<string>, aggs: seq<AggExpr>, meta: TableMeta,
                     rows: seq<Row>)
    requires ScanMeta(db, root) == Success(meta) && Evaluate(render, db, root) == Success(rows)
    ensures Evaluate(render, db, GroupBy(root, keys, aggs)) == GroupByRows(render, meta.schema, keys, aggs, rows)
  {
  }

  lemma AggregateMeans(render: Renderer, db: Db, root: PlanNode, aggs: seq<AggExpr>, meta: TableMeta, rows: seq<Row>)
    requires ScanMeta(db, root) == Success(meta) && Evaluate(render, db, root) == Success(rows)
    ensures Evaluate(render, db, Aggregate(root, aggs)) == AsRow(RowAggregates(rows, meta.schema, aggs))
  {
  }

  lemma OrderPlanMeans(render: Renderer, db: Db, root: PlanNode, order: seq<(string, bool)>, meta: TableMeta)
    requires ScanMeta(db, root) == Success(meta)
    ensures Evaluate(render, db, OrderPlan(root, order)) ==
      match Evaluate(render, db, root)
      case Success(rows) => if order == [] then Success(rows) else OrderRows(meta.schema, order, rows)
      case Failure(e) => Failure(e)
  {
  }

  lemma LimitPlanMeans(render: Renderer, db: Db, root: PlanNode, limit: nat, offset: nat)
    ensures Evaluate(render, db, LimitPlan(root, limit, offset)) ==
      match Evaluate(render, db, root)
      case Success(rows) => Success(Window(limit, offset, rows))
      case Failure(e) => Failure(e)
  {
  }

  lemma NoOrder(schema: Schema, rows: seq<Row>)
    ensures OrderRows(schema, [], rows) == Success(rows)
  {
    SortByNothing(rows);
  }

  /** Ordering what was listed is listing what was ordered, where the ordering survives. */
  lemma ListThenOrder(render: Renderer, schema: Schema, stored: seq<Row>, q: Query)
    requires q.body.SelectFrom? && q.body.groupBy.Expressions? && OrderSurvives(schema, stored, q)
    ensures
      var kept, order := KeptRows(q.body.selection, schema, stored), OrderOf(q.orderBy);
      var keys, items := NamesOf(q.body.groupBy.exprs), q.body.projection;
      (match Listed(render, schema, keys, items, kept)
       case Success(rows) => if order == [] then Success(rows) else OrderRows(schema, order, rows)
       case Failure(e) => Failure(e))
      == if keys != [] || OnlyAggregates(items) then Listed(render, schema, keys, items, kept)
         else OrderedList(schema, order, ItemNames(items), kept)
  {
    var kept, order := KeptRows(q.body.selection, schema, stored), OrderOf(q.orderBy);
    var names := ItemNames(q.body.projection);
    if order == [] {
      NoOrder(schema, kept);
    } else if names != [] && OrderIndices(schema, order).Success? {
      OrderThenProject(names, schema, OrderIndices(schema, order).value, kept);
    }
  }

  /** Planned and then evaluated over the rows, a SELECT gives what it says. */
  lemma PlanMeansQuery(render: Renderer, db: Db, q: Query)
    requires QueryPlan(q).Success? && ReadsAsWritten(db, q)
    ensures Evaluate(render, db, QueryPlan(q).value) == Meaning(render, db, q)
  {
    var (namespace, table) := TableParts(q.body.from[0].parts);
    var scan := Scan(table, namespace);
    var filtered := FilterPlan(scan, q.body.selection).value;
    var keys := NamesOf(q.body.groupBy.exprs);
    var listed := ListPlan(filtered, keys, q.body.projection).value;
    if ScanMeta(db, scan).Success? {
      var meta := ScanMeta(db, scan).value;
      var stored := TableRows(db.rows, meta.id);
      var kept := KeptRows(q.body.selection, meta.schema, stored);
      FilterPlanMeans(render, db, scan, q.body.selection, meta);
      ListPlanMeans(render, db, filtered, keys, q.body.projection, meta, kept);
      OrderPlanMeans(render, db, listed, OrderOf(q.orderBy), meta);
      LimitPlanMeans(render, db, OrderPlan(listed, OrderOf(q.orderBy)), OrElse(q.limit, U64_MAX), OrElse(q.offset, 0));
      ListThenOrder(render, meta.schema, stored, q);
    } else {
      PlanReadsTable(db, q);
      UnknownTable(render, db, QueryPlan(q).value, ScanMeta(db, scan).error);
    }
  }

  lemma {:induction false} UnknownTable(render: Renderer, db: Db, root: PlanNode, e: Error)
    requires IsQuery(root) && ScanMeta(db, root) == Failure(e)
    ensures Evaluate(render, db, root) == Failure(e)
  {
    if !root.Scan? {
      UnknownTable(render, db, root.input, e);
    }
  }

  lemma FilterReads(db: Db, root: PlanNode, selection: Option<Expr>)
    requires IsQuery(root) && FilterPlan(root, selection).Success?
    ensures IsQuery(FilterPlan(root, selection).value)
    ensures ScanMeta(db, FilterPlan(root, selection).value) == ScanMeta(db, root)
  {
  }

  lemma ListReads(db: Db, root: PlanNode, keys: seq<string>, items: seq<SelectItem>)
    requires IsQuery(root) && ListPlan(root, keys, items).Success?
    ensures IsQuery(ListPlan(root, keys, items).value)
    ensures ScanMeta(db, ListPlan(root, keys, items).value) == ScanMeta(db, root)
  {
  }

  lemma OrderReads(db: Db, root: PlanNode, order: seq<(string, bool)>)
    requires IsQuery(root)
    ensures IsQuery(OrderPlan(root, order)) && ScanMeta(db, OrderPlan(root, order)) == ScanMeta(db, root)
  {
  }

  lemma LimitReads(db: Db, root: PlanNode, limit: nat, offset: nat)
    requires IsQuery(root)
    ensures IsQuery(LimitPlan(root, limit, offset))
    ensures ScanMeta(db, LimitPlan(root, limit, offset)) == ScanMeta(db, root)
  {
  }

  /** Every planned SELECT is a chain of query nodes over a scan of its table. */
  lemma PlanReadsTable(db: Db, q: Query)
    requires QueryPlan(q).Success?
    ensures var (namespace, table) := TableParts(q.body.from[0].parts);
      IsQuery(QueryPlan(q).value) && ScanMeta(db, QueryPlan(q).value) == FindTable(db, namespace, table)
  {
    var (namespace, table) := TableParts(q.body.from[0].parts);
    var scan, keys := Scan(table, namespace), NamesOf(q.body.groupBy.exprs);
    FilterReads(db, scan, q.body.selection);
    var filtered := FilterPlan(scan, q.body.selection).value;
    ListReads(db, filtered, keys, q.body.projection);
    var listed := ListPlan(filtered, keys, q.body.projection).value;
    OrderReads(db, listed, OrderOf(q.orderBy));
    LimitReads(db, OrderPlan(listed, OrderOf(q.orderBy)), OrElse(q.limit, U64_MAX), OrElse(q.offset, 0));
  }

  /** From SQL to answer: after any clean run, executing the plan of a SELECT over indexes and chunks gives
      the rows that the SELECT asks for, read off the stored rows. */
  lemma SelectAnswersQuery(cfg: Config, catalog: CatalogState, plans: seq<PlanNode>, q: Query)
    requires ValidConfig(cfg) && Consistent(catalog) && CleanRun(cfg, NewSession(catalog), plans)
    requires QueryPlan(q).Success?
    requires var db := Run(cfg, NewSession(catalog), plans);
      ReadsAsWritten(db, q) && FastPathsSafe(db, QueryPlan(q).value)
    ensures var db := Run(cfg, NewSession(catalog), plans);
      Exec(cfg, db, QueryPlan(q).value).1 == AsOutcome(Meaning(cfg.render, db, q))
  {
    CleanRunsRefineReference(cfg, catalog, plans, QueryPlan(q).value);
    PlanMeansQuery(cfg.render, Run(cfg, NewSession(catalog), plans), q);
  }

  /** The same over an index range, after any run: the rows that the SELECT asks for, each as often; in its
      order from a grouping or an ordering that decides upwards, and up to ties under other orderings; a LIMIT
      of no order gives as many. */
  lemma SelectAnswersRange(cfg: Config, catalog: CatalogState, plans: seq<PlanNode>, q: Query)
    requires ValidConfig(cfg) && Consistent(catalog) && QueryPlan(q).Success?
    requires ReadsAsWritten(Run(cfg, NewSession(catalog), plans), q)
    ensures var db := Run(cfg, NewSession(catalog), plans);
      RangeAnswered(cfg, db, QueryPlan(q).value, Meaning(cfg.render, db, q))
  {
    PlanMeansQuery(cfg.render, Run(cfg, NewSession(catalog), plans), q);
    RunsRefineReferenceInRanges(cfg, catalog, plans, QueryPlan(q).value);
  }
}
