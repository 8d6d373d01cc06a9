/** Queries over an index range, whose rows come in key order, give the rows of the reference in some order. */
module RangeRefinement {
  import opened BagAggregates
  import opened Catalogs
  import opened Engine
  import opened Grouping
  import opened IndexedLookups
  import opened Invariants
  import opened OperatorMeaning
  import opened Plans
  import opened Refinement
  import opened RowOrder
  import opened Schemas
  import opened Seqs
  import opened Sorting
  import opened Values

  ghost predicate SameBag(a: Result<seq<Row>>, b: Result<seq<Row>>) {
    match (a, b)
    case (Success(r), Success(s)) => multiset(r) == multiset(s)
    case (Failure(e), Failure(f)) => e == f
    case _ => false
  }

  /** A safe range filter over a scan, and over it filters, projections, orderings, and groupings whose
      sums cannot overflow. */
  ghost predicate RangeSupported(render: Renderer, db: Db, plan: PlanNode) {
    match plan
    case Filter(input, pred) =>
      if input.Scan? then
        ScanMeta(db, input).Success? &&
        var t := ScanMeta(db, input).value.id;
        var lookup := FilterLookup(db, input, pred, t);
        lookup.Some? && lookup.value.RangeInclusive? && IsSafe(db, t, lookup.value)
      else RangeSupported(render, db, input)
    case Project(input, _) => RangeSupported(render, db, input)
    case OrderBy(input, _) => RangeSupported(render, db, input)
    case GroupBy(input, _, aggs) => RangeSupported(render, db, input) && SumsStayExact(render, db, input, aggs)
    case _ => false
  }

  ghost predicate SumsStayExact(render: Renderer, db: Db, input: PlanNode, aggs: seq<AggExpr>) {
    var rows := Evaluate(render, db, input);
    rows.Success? && ScanMeta(db, input).Success? ==>
      forall agg :: agg in aggs ==> OrderFree(ScanMeta(db, input).value.schema, rows.value, agg)
  }

  lemma RangeFilterOverScan(cfg: Config, db: Db, input: PlanNode, pred: FilterExpr)
    requires RowInv(db) && input.Scan? && RangeSupported(cfg.render, db, Filter(input, pred))
    ensures SameBag(RowsOf(Exec(cfg, db, Filter(input, pred)).1), Evaluate(cfg.render, db, Filter(input, pred)))
  {
    var meta := ScanMeta(db, input).value;
    ScannedIsKnown(db, input);
    FilterPaths(cfg, db, input, pred, meta);
    EvaluateFilter(cfg.render, db, input, pred, meta);
    var lookup := FilterLookup(db, input, pred, meta.id).value;
    RangeIsFilter(db, meta.id, pred, lookup.low, lookup.high);
  }

  predicate IsBagOperator(plan: PlanNode) {
    plan.Filter? || plan.Project? || plan.OrderBy? || plan.GroupBy?
  }

  /** What an operator makes of its input's rows. */
  function BagOperator(render: Renderer, plan: PlanNode, schema: Schema, rows: seq<Row>): Result<seq<Row>>
    requires IsBagOperator(plan)
  {
    match plan
    case Filter(_, pred) => Success(FilterRows(pred, schema, rows))
    case Project(_, names) => Success(ProjectRows(names, schema, rows))
    case OrderBy(_, order) => OrderRows(schema, order, rows)
    case GroupBy(_, keys, aggs) => GroupByRows(render, schema, keys, aggs, rows)
  }

  lemma BagOperatorAgrees(render: Renderer, plan: PlanNode, schema: Schema, a: seq<Row>, b: seq<Row>)
    requires Faithful(render) && IsBagOperator(plan) && multiset(a) == multiset(b)
    requires plan.GroupBy? ==> forall agg :: agg in plan.aggs ==> OrderFree(schema, b, agg)
    ensures SameBag(BagOperator(render, plan, schema, a), BagOperator(render, plan, schema, b))
  {
    match plan
    case Filter(_, pred) => BagSelectAgrees((row: Row) => EvalPredicate(row, pred, schema), a, b);
    case Project(_, names) => BagMapAgrees((row: Row) => ProjectRow(names, schema, row), a, b);
    case OrderBy(_, _) =>
    case GroupBy(_, keys, aggs) => GroupByAgrees(render, schema, keys, aggs, b, a);
  }

  /** An index range returns rows in key order, so what lies over it agrees with the reference up to order. */
  lemma {:induction false} RangeRefinesReference(cfg: Config, db: Db, plan: PlanNode)
    requires ValidConfig(cfg) && Inv(cfg, db) && RangeSupported(cfg.render, db, plan)
    ensures SameBag(RowsOf(Exec(cfg, db, plan).1), Evaluate(cfg.render, db, plan))
  {
    if plan.Filter? && plan.input.Scan? {
      RangeFilterOverScan(cfg, db, plan.input, plan.pred);
    } else {
      RangeRefinesReference(cfg, db, plan.input);
      RangeOperatorAgrees(cfg, db, plan);
    }
  }

  lemma {:induction false} RangeIsQuery(render: Renderer, db: Db, plan: PlanNode)
    requires RangeSupported(render, db, plan)
    ensures IsQuery(plan) && ScanMeta(db, plan).Success?
  {
    if !(plan.Filter? && plan.input.Scan?) {
      RangeIsQuery(render, db, plan.input);
    }
  }

  /** An operator that is not answered from an index works on its input's rows. */
  lemma OperatorOfInput(cfg: Config, db: Db, plan: PlanNode)
    requires IsBagOperator(plan) && !(plan.Filter? && plan.input.Scan?) && ScanMeta(db, plan.input).Success?
    requires ScanMeta(Exec(cfg, db, plan.input).0, plan.input) == ScanMeta(db, plan.input)
    ensures
      var schema := ScanMeta(db, plan.input).value.schema;
      var (a, b) := (RowsOf(Exec(cfg, db, plan.input).1), Evaluate(cfg.render, db, plan.input));
      && RowsOf(Exec(cfg, db, plan).1) == Applied(cfg.render, plan, schema, a)
      && Evaluate(cfg.render, db, plan) == Applied(cfg.render, plan, schema, b)
  {
  }

  function Applied(render: Renderer, plan: PlanNode, schema: Schema, r: Result<seq<Row>>): Result<seq<Row>>
    requires IsBagOperator(plan)
  {
    match r
    case Success(rows) => BagOperator(render, plan, schema, rows)
    case Failure(e) => Failure(e)
  }

  lemma RangeOperatorAgrees(cfg: Config, db: Db, plan: PlanNode)
    requires ValidConfig(cfg) && RangeSupported(cfg.render, db, plan) && !(plan.Filter? && plan.input.Scan?)
    requires SameBag(RowsOf(Exec(cfg, db, plan.input).1), Evaluate(cfg.render, db, plan.input))
    ensures SameBag(RowsOf(Exec(cfg, db, plan).1), Evaluate(cfg.render, db, plan))
  {
    RangeIsQuery(cfg.render, db, plan.input);
    QueryKeepsMeta(cfg, db, plan.input);
    OperatorOfInput(cfg, db, plan);
    var schema := ScanMeta(db, plan.input).value.schema;
    var (a, b) := (RowsOf(Exec(cfg, db, plan.input).1), Evaluate(cfg.render, db, plan.input));
    if a.Success? {
      BagOperatorAgrees(cfg.render, plan, schema, a.value, b.value);
    }
  }

  // ----- row for row above a grouping or an ordering that decides

  /** The columns of an ordering, by their positions in the table that is read. */
  function Resolved(db: Db, input: PlanNode, order: seq<(string, bool)>): Result<seq<(nat, bool)>> {
    var meta :- ScanMeta(db, input);
    OrderIndices(meta.schema, order)
  }

  /** An ordering whose columns are orderable on its input. */
  ghost predicate OrderKept(render: Renderer, db: Db, input: PlanNode, order: seq<(string, bool)>) {
    var (rows, indices) := (Evaluate(render, db, input), Resolved(db, input, order));
    rows.Success? && indices.Success? ==> Comparable(rows.value, indices.value)
  }

  /** One that besides leaves nothing open: rows that tie are equal. */
  ghost predicate OrderDecides(render: Renderer, db: Db, input: PlanNode, order: seq<(string, bool)>) {
    var (rows, indices) := (Evaluate(render, db, input), Resolved(db, input, order));
    && OrderKept(render, db, input, order)
    && (rows.Success? && indices.Success? ==> TiesAreEqual(Before(indices.value), rows.value))
  }

  /** A grouping, or an ordering that decides, determines the order of rows whatever order they came in, so
      from there upwards a query over a range is determined row for row. */
  ghost predicate RowForRow(render: Renderer, db: Db, plan: PlanNode) {
    match plan
    case GroupBy(input, _, aggs) =>
      RowForRow(render, db, input) || (RangeSupported(render, db, input) && SumsStayExact(render, db, input, aggs))
    case OrderBy(input, order) =>
      RowForRow(render, db, input) || (RangeSupported(render, db, input) && OrderDecides(render, db, input, order))
    case Filter(input, _) => RowForRow(render, db, input)
    case Project(input, _) => RowForRow(render, db, input)
    case Limit(input, _, _) => RowForRow(render, db, input)
    case _ => false
  }

  lemma {:induction false} RowForRowIsQuery(render: Renderer, db: Db, plan: PlanNode)
    requires RowForRow(render, db, plan)
    ensures IsQuery(plan) && ScanMeta(db, plan).Success? && !plan.Scan?
  {
    if RowForRow(render, db, plan.input) {
      RowForRowIsQuery(render, db, plan.input);
    } else {
      RangeIsQuery(render, db, plan.input);
    }
  }

  lemma LimitOfInput(cfg: Config, db: Db, input: PlanNode, limit: nat, offset: nat)
    ensures
      var a := RowsOf(Exec(cfg, db, input).1);
      RowsOf(Exec(cfg, db, Limit(input, limit, offset)).1)
        == if a.Success? then Success(LimitRows(limit, offset, a.value)) else Failure(a.error)
  {
  }

  lemma SameInputSameOutput(cfg: Config, db: Db, plan: PlanNode)
    requires IsBagOperator(plan) && !plan.input.Scan? && IsQuery(plan.input) && ScanMeta(db, plan.input).Success?
    requires RowsOf(Exec(cfg, db, plan.input).1) == Evaluate(cfg.render, db, plan.input)
    ensures RowsOf(Exec(cfg, db, plan).1) == Evaluate(cfg.render, db, plan)
  {
    QueryKeepsMeta(cfg, db, plan.input);
    OperatorOfInput(cfg, db, plan);
  }

  lemma GroupingOverRange(cfg: Config, db: Db, plan: PlanNode)
    requires ValidConfig(cfg) && Inv(cfg, db) && plan.GroupBy?
    requires RangeSupported(cfg.render, db, plan.input) && SumsStayExact(cfg.render, db, plan.input, plan.aggs)
    ensures RowsOf(Exec(cfg, db, plan).1) == Evaluate(cfg.render, db, plan)
  {
    RangeIsQuery(cfg.render, db, plan.input);
    QueryKeepsMeta(cfg, db, plan.input);
    OperatorOfInput(cfg, db, plan);
    RangeRefinesReference(cfg, db, plan.input);
    var (a, b) := (RowsOf(Exec(cfg, db, plan.input).1), Evaluate(cfg.render, db, plan.input));
    if a.Success? {
      GroupByAgrees(cfg.render, ScanMeta(db, plan.input).value.schema, plan.keys, plan.aggs, b.value, a.value);
    }
  }

  lemma OrderingOverRange(cfg: Config, db: Db, plan: PlanNode)
    requires ValidConfig(cfg) && Inv(cfg, db) && plan.OrderBy?
    requires RangeSupported(cfg.render, db, plan.input) && OrderDecides(cfg.render, db, plan.input, plan.order)
    ensures RowsOf(Exec(cfg, db, plan).1) == Evaluate(cfg.render, db, plan)
  {
    RangeIsQuery(cfg.render, db, plan.input);
    QueryKeepsMeta(cfg, db, plan.input);
    OperatorOfInput(cfg, db, plan);
    RangeRefinesReference(cfg, db, plan.input);
    var (a, b) := (RowsOf(Exec(cfg, db, plan.input).1), Evaluate(cfg.render, db, plan.input));
    var schema := ScanMeta(db, plan.input).value.schema;
    if a.Success? && OrderIndices(schema, plan.order).Success? {
      var indices := OrderIndices(schema, plan.order).value;
      ComparatorIsWeakOrder(b.value, indices);
      SortOfBag(Before(indices), b.value, a.value);
    }
  }

  lemma {:induction false} RowForRowRefines(cfg: Config, db: Db, plan: PlanNode)
    requires ValidConfig(cfg) && Inv(cfg, db) && RowForRow(cfg.render, db, plan)
    ensures RowsOf(Exec(cfg, db, plan).1) == Evaluate(cfg.render, db, plan)
  {
    if !RowForRow(cfg.render, db, plan.input) {
      if plan.GroupBy? {
        GroupingOverRange(cfg, db, plan);
      } else {
        OrderingOverRange(cfg, db, plan);
      }
    } else {
      RowForRowRefines(cfg, db, plan.input);
      RowForRowIsQuery(cfg.render, db, plan.input);
      if plan.Limit? {
        LimitOfInput(cfg, db, plan.input, plan.limit, plan.offset);
      } else {
        SameInputSameOutput(cfg, db, plan);
      }
    }
  }

  // ----- a window on a range

  lemma WindowOfBag(limit: nat, offset: nat, a: seq<Row>, b: seq<Row>)
    requires multiset(a) == multiset(b)
    ensures multiset(LimitRows(limit, offset, a)) <= multiset(b)
    ensures |LimitRows(limit, offset, a)| == WindowSize(limit, offset, |b|)
  {
    BagSize(a, b);
    var skip := if offset < |a| then offset else |a|;
    var kept := LimitRows(limit, offset, a);
    WindowMeans(limit, offset, a);
    assert a == (a[..skip] + kept) + a[skip + |kept|..];
  }

  /** LIMIT over a range: as many rows as asked for or as there are from the offset on, all of them among the
      reference's input rows and none too often. */
  lemma LimitOverRange(cfg: Config, db: Db, input: PlanNode, limit: nat, offset: nat)
    requires ValidConfig(cfg) && Inv(cfg, db) && RangeSupported(cfg.render, db, input)
    ensures
      var (a, b) := (RowsOf(Exec(cfg, db, Limit(input, limit, offset)).1), Evaluate(cfg.render, db, input));
      if b.Failure? then a == b
      else
        && a.Success? && multiset(a.value) <= multiset(b.value)
        && |a.value| == if offset >= |b.value| then 0
                        else if limit < |b.value| - offset then limit
                        else |b.value| - offset
  {
    RangeRefinesReference(cfg, db, input);
    LimitOfInput(cfg, db, input, limit, offset);
    var (a, b) := (RowsOf(Exec(cfg, db, input).1), Evaluate(cfg.render, db, input));
    if a.Success? {
      WindowOfBag(limit, offset, a.value, b.value);
    }
  }

  // ----- an ordering with ties

  /** An ordering of orderable columns over a range, and windows on it. */
  ghost predicate OrderedRange(render: Renderer, db: Db, plan: PlanNode) {
    match plan
    case OrderBy(input, order) => RangeSupported(render, db, input) && OrderKept(render, db, input, order)
    case Limit(input, _, _) => OrderedRange(render, db, input)
    case _ => false
  }

  /** The columns that the rows of such a query are ordered by. */
  function OrderingOf(db: Db, plan: PlanNode): seq<(nat, bool)> {
    match plan
    case OrderBy(input, order) => if Resolved(db, input, order).Success? then Resolved(db, input, order).value else []
    case Limit(input, _, _) => OrderingOf(db, input)
    case _ => []
  }

  /** Both fail alike, or both give rows in order that tie row by row. */
  ghost predicate SameUpToTies(order: seq<(nat, bool)>, a: Result<seq<Row>>, b: Result<seq<Row>>) {
    match (a, b)
    case (Success(r), Success(s)) => TiedRowByRow(Before(order), r, s)
    case (Failure(e), Failure(f)) => e == f
    case _ => false
  }

  lemma OrderOverRangeTies(cfg: Config, db: Db, plan: PlanNode)
    requires ValidConfig(cfg) && Inv(cfg, db) && plan.OrderBy?
    requires RangeSupported(cfg.render, db, plan.input) && OrderKept(cfg.render, db, plan.input, plan.order)
    ensures SameUpToTies(OrderingOf(db, plan), RowsOf(Exec(cfg, db, plan).1), Evaluate(cfg.render, db, plan))
  {
    RangeIsQuery(cfg.render, db, plan.input);
    QueryKeepsMeta(cfg, db, plan.input);
    OperatorOfInput(cfg, db, plan);
    RangeRefinesReference(cfg, db, plan.input);
    var (a, b) := (RowsOf(Exec(cfg, db, plan.input).1), Evaluate(cfg.render, db, plan.input));
    var schema := ScanMeta(db, plan.input).value.schema;
    if a.Success? && OrderIndices(schema, plan.order).Success? {
      var indices := OrderIndices(schema, plan.order).value;
      ComparatorIsWeakOrder(b.value, indices);
      SameMembers(a.value, b.value);
      WeakOrderOnFewer(Before(indices), b.value, a.value);
      SortsTie(Before(indices), a.value, b.value);
    }
  }

  lemma WindowsTie(lt: (Row, Row) -> bool, limit: nat, offset: nat, a: seq<Row>, b: seq<Row>)
    requires TiedRowByRow(lt, a, b)
    ensures TiedRowByRow(lt, LimitRows(limit, offset, a), LimitRows(limit, offset, b))
  {
    var r, s := LimitRows(limit, offset, a), LimitRows(limit, offset, b);
    WindowMeans(limit, offset, a);
    WindowMeans(limit, offset, b);
    forall i, j | 0 <= i < j < |r| ensures !lt(r[j], r[i]) && !lt(s[j], s[i]) {
      assert r[i] == a[offset + i] && r[j] == a[offset + j];
      assert s[i] == b[offset + i] && s[j] == b[offset + j];
    }
    forall k | 0 <= k < |r| ensures Tied(lt, r[k], s[k]) {
      assert r[k] == a[offset + k] && s[k] == b[offset + k];
    }
  }

  /** ORDER BY over a range, and any windows on it: the rows come in order and tie with those of the reference
      row by row, so the answer is the reference's up to which of several tied rows stand or survive. */
  lemma {:induction false} OrderedRangeTies(cfg: Config, db: Db, plan: PlanNode)
    requires ValidConfig(cfg) && Inv(cfg, db) && OrderedRange(cfg.render, db, plan)
    ensures SameUpToTies(OrderingOf(db, plan), RowsOf(Exec(cfg, db, plan).1), Evaluate(cfg.render, db, plan))
  {
    match plan
    case OrderBy(_, _) => OrderOverRangeTies(cfg, db, plan);
    case Limit(input, limit, offset) =>
      OrderedRangeTies(cfg, db, input);
      LimitOfInput(cfg, db, input, limit, offset);
      var (a, b) := (RowsOf(Exec(cfg, db, input).1), Evaluate(cfg.render, db, input));
      if a.Success? {
        WindowsTie(Before(OrderingOf(db, input)), limit, offset, a.value, b.value);
      }
  }

  // ----- whole runs

  /** How a query over an index range is answered, against a reference: each row as often, in the same order
      from a grouping or an ordering that decides upwards, in order and up to ties under any other ordering of
      orderable columns, and directly under a LIMIT as many of them. */
  ghost predicate RangeAnswered(cfg: Config, db: Db, query: PlanNode, reference: Result<seq<Row>>) {
    var answer := RowsOf(Exec(cfg, db, query).1);
    && (RangeSupported(cfg.render, db, query) ==> SameBag(answer, reference))
    && (RowForRow(cfg.render, db, query) ==> answer == reference)
    && (OrderedRange(cfg.render, db, query) ==> SameUpToTies(OrderingOf(db, query), answer, reference))
    && (query.Limit? && RangeSupported(cfg.render, db, query.input) ==>
          WindowAnswered(query.limit, query.offset, answer, Evaluate(cfg.render, db, query.input)))
  }

  /** As many rows as the window shows of the input, none of them more often than the input has it. */
  ghost predicate WindowAnswered(limit: nat, offset: nat, answer: Result<seq<Row>>, input: Result<seq<Row>>) {
    match (answer, input)
    case (Success(r), Success(s)) => |r| == WindowSize(limit, offset, |s|) && multiset(r) <= multiset(s)
    case (Failure(e), Failure(f)) => e == f
    case _ => false
  }

  /** After any run of statements, failing ones included, queries over an index range are answered as the
      reference evaluates them. */
  lemma RunsRefineReferenceInRanges(cfg: Config, catalog: CatalogState, plans: seq<PlanNode>, query: PlanNode)
    requires ValidConfig(cfg) && Consistent(catalog)
    ensures
      var db := Run(cfg, NewSession(catalog), plans);
      RangeAnswered(cfg, db, query, Evaluate(cfg.render, db, query))
  {
    var db := Run(cfg, NewSession(catalog), plans);
    NewSessionInv(cfg, catalog);
    RunKeepsInv(cfg, NewSession(catalog), plans);
    if RangeSupported(cfg.render, db, query) {
      RangeRefinesReference(cfg, db, query);
    }
    if RowForRow(cfg.render, db, query) {
      RowForRowRefines(cfg, db, query);
    }
    if OrderedRange(cfg.render, db, query) {
      OrderedRangeTies(cfg, db, query);
    }
    if query.Limit? && RangeSupported(cfg.render, db, query.input) {
      LimitOverRange(cfg, db, query.input, query.limit, query.offset);
    }
  }
}
