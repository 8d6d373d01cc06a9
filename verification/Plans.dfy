/** Logical plans, row predicates, and the index lookups read off predicates. */
module Plans {
  import Lex
  import opened Schemas
  import opened Values

  datatype CmpOp = Eq | Ne | Gt | Ge | Lt | Le

  datatype FilterExpr =
    | Literal(b: bool)
    | And(left: FilterExpr, right: FilterExpr)
    | Or(left: FilterExpr, right: FilterExpr)
    | Not(inner: FilterExpr)
    | Cmp(col: string, op: CmpOp, value: Value)

  datatype AggExpr =
    | Sum(column: string)
    | CountStar
    | Count(column: string)
    | Avg(column: string)
    | Min(column: string)
    | Max(column: string)

  datatype PlanNode =
    | Scan(table: string, namespace: Option<string>)
    | Filter(input: PlanNode, pred: FilterExpr)
    | Project(input: PlanNode, names: seq<string>)
    | Aggregate(input: PlanNode, aggs: seq<AggExpr>)
    | GroupBy(input: PlanNode, keys: seq<string>, aggs: seq<AggExpr>)
    | OrderBy(input: PlanNode, order: seq<(string, bool)>)
    | Limit(input: PlanNode, limit: nat, offset: nat)
    | Insert(table: string, namespace: Option<string>, values: seq<Row>)
    | CreateTable(table: string, namespace: Option<string>, columns: seq<(string, ColumnType)>)
    | DropTable(table: string, namespace: Option<string>)

  function NamespaceOf(namespace: Option<string>): string {
    if namespace.Some? then namespace.value else "public"
  }

  /** `v op w`; an order comparison of values that do not compare is false. */
  predicate Holds(op: CmpOp, v: Value, w: Value) {
    match op
    case Eq => v == w
    case Ne => v != w
    case Gt => Compare(v, w) == Some(Greater)
    case Ge => Compare(v, w).Some? && Compare(v, w) != Some(Less)
    case Lt => Compare(v, w) == Some(Less)
    case Le => Compare(v, w).Some? && Compare(v, w) != Some(Greater)
  }

  function NamedCell(row: Row, schema: Schema, name: string): Option<Value> {
    match ColumnIndex(schema, name)
    case Some(i) => Cell(row, i)
    case None => None
  }

  predicate EvalPredicate(row: Row, pred: FilterExpr, schema: Schema) {
    match pred
    case Literal(b) => b
    case Cmp(col, op, value) =>
      var v := NamedCell(row, schema, col);
      v.Some? && Holds(op, v.value, value)
    case And(a, b) => EvalPredicate(row, a, schema) && EvalPredicate(row, b, schema)
    case Or(a, b) => EvalPredicate(row, a, schema) || EvalPredicate(row, b, schema)
    case Not(n) => !EvalPredicate(row, n, schema)
  }

  datatype IdLookup = Point(v: Value) | RangeInclusive(low: Value, high: Value)

  /** The lookup that an index on `column` can answer in place of the predicate, if there is one. */
  function PredicateToLookup(pred: FilterExpr, column: string): Option<IdLookup> {
    match pred
    case Cmp(col, Eq, value) => if col == column then Some(Point(value)) else None
    case And(Cmp(c1, Ge, v1), Cmp(c2, Le, v2)) =>
      if c1 == column && c2 == column then Some(RangeInclusive(v1, v2)) else None
    case And(Cmp(c1, Le, v1), Cmp(c2, Ge, v2)) =>
      if c1 == column && c2 == column then Some(RangeInclusive(v2, v1)) else None
    case _ => None
  }

  /** A lookup replaces an equality on the column, and a pair of bounds on it in either order, and nothing else. */
  lemma LookupFires(pred: FilterExpr, column: string, v: Value, w: Value)
    ensures PredicateToLookup(pred, column) == Some(Point(v)) <==> pred == Cmp(column, Eq, v)
    ensures PredicateToLookup(pred, column) == Some(RangeInclusive(v, w)) <==>
      pred == And(Cmp(column, Ge, v), Cmp(column, Le, w)) || pred == And(Cmp(column, Le, w), Cmp(column, Ge, v))
  {
  }

  /** The rows a lookup stands for, in terms of the cell under the indexed column. */
  predicate Denotes(lookup: IdLookup, cell: Option<Value>) {
    cell.Some? &&
    match lookup
    case Point(v) => cell.value == v
    case RangeInclusive(low, high) =>
      match (cell.value, low, high) {
        case (Int64(x), Int64(a), Int64(b)) => a <= x <= b
        case (Str(x), Str(a), Str(b)) => CmpText(a, x) != Greater && CmpText(x, b) != Greater
        case _ => false
      }
  }

  /** A lookup that fires stands for exactly the rows of its predicate. */
  lemma LookupDenotesPredicate(pred: FilterExpr, column: string, row: Row, schema: Schema)
    requires PredicateToLookup(pred, column).Some?
    ensures EvalPredicate(row, pred, schema)
       <==> Denotes(PredicateToLookup(pred, column).value, NamedCell(row, schema, column))
  {
    match pred
    case And(Cmp(c1, Ge, v1), Cmp(c2, Le, v2)) => BoundsMean(v1, v2, NamedCell(row, schema, column));
    case And(Cmp(c1, Le, v1), Cmp(c2, Ge, v2)) => BoundsMean(v2, v1, NamedCell(row, schema, column));
    case _ =>
  }

  lemma BoundsMean(low: Value, high: Value, cell: Option<Value>)
    ensures cell.Some? && Holds(Ge, cell.value, low) && Holds(Le, cell.value, high)
       <==> Denotes(RangeInclusive(low, high), cell)
  {
    if cell.Some? && cell.value.Str? && low.Str? {
      Lex.LtIsTotal(low.s, cell.value.s);
      if Lex.Lt(low.s, cell.value.s) { Lex.LtIsStrict(low.s, cell.value.s); }
      if Lex.Lt(cell.value.s, low.s) { Lex.LtIsStrict(cell.value.s, low.s); }
    }
  }
}
