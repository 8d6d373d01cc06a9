/** What windows, filters, projections and aggregates return, read off the cells of the rows they are given. */
module OperatorMeaning {
  import opened Aggregates
  import opened Columnar
  import opened Engine
  import opened Grouping
  import opened GroupTotals
  import opened Means
  import opened Plans
  import opened Refinement
  import opened Saturation
  import opened Schemas
  import opened Seqs
  import opened Values

  // ----- LIMIT and OFFSET

  /** How many of `n` rows a window shows. */
  function WindowSize(limit: nat, offset: nat, n: nat): nat {
    if offset >= n then 0 else if limit < n - offset then limit else n - offset
  }

  lemma WindowMeans(limit: nat, offset: nat, rows: seq<Row>)
    ensures |LimitRows(limit, offset, rows)| == WindowSize(limit, offset, |rows|)
    ensures forall k :: 0 <= k < WindowSize(limit, offset, |rows|) ==>
      LimitRows(limit, offset, rows)[k] == rows[offset + k]
  {
    if offset < |rows| {
      var rest := rows[offset..];
      assert LimitRows(limit, offset, rows) == rest[..WindowSize(limit, offset, |rows|)];
      assert forall k :: 0 <= k < |rest| ==> rest[k] == rows[offset + k];
    } else {
      assert |LimitRows(limit, offset, rows)| == 0;
    }
  }

  /** Executing LIMIT: of its input's rows those from the offset on, as many as asked for or as there are. */
  lemma LimitMeans(cfg: Config, db: Db, input: PlanNode, limit: nat, offset: nat, rows: seq<Row>)
    requires RowsOf(Exec(cfg, db, input).1) == Success(rows)
    ensures
      var answer := RowsOf(Exec(cfg, db, Limit(input, limit, offset)).1);
      && answer.Success?
      && |answer.value| == (if offset >= |rows| then 0 else if limit < |rows| - offset then limit else |rows| - offset)
      && forall k :: 0 <= k < |answer.value| ==> answer.value[k] == rows[offset + k]
  {
    WindowMeans(limit, offset, rows);
  }

  // ----- WHERE

  /** Executing a filter that no index answers: its input's rows that satisfy it, in order, as often. */
  lemma FilterMeans(cfg: Config, db: Db, input: PlanNode, pred: FilterExpr, schema: Schema, rows: seq<Row>)
    requires RowsOf(Exec(cfg, db, input).1) == Success(rows)
    requires ScanMeta(db, input).Success? && ScanMeta(db, input).value.schema == schema
    requires FilterLookup(db, input, pred, ScanMeta(db, input).value.id).None?
    ensures RowsOf(Exec(cfg, db, Filter(input, pred)).1)
         == Success(Select((row: Row) => EvalPredicate(row, pred, schema), rows))
  {
  }

  lemma {:induction false} PartAndRest<T(!new)>(p: T -> bool, q: T -> bool, s: seq<T>)
    requires forall x :: x in s ==> p(x) != q(x)
    ensures multiset(Select(p, s)) + multiset(Select(q, s)) == multiset(s)
  {
    if s != [] {
      assert s == s[..|s| - 1] + [s[|s| - 1]];
      PartAndRest(p, q, s[..|s| - 1]);
    }
  }

  /** A condition and its negation share the rows out between them. */
  lemma NotKeepsTheRest(pred: FilterExpr, schema: Schema, rows: seq<Row>)
    ensures multiset(FilterRows(pred, schema, rows)) + multiset(FilterRows(Not(pred), schema, rows)) == multiset(rows)
  {
    PartAndRest((row: Row) => EvalPredicate(row, pred, schema), (row: Row) => EvalPredicate(row, Not(pred), schema),
                rows);
  }

  lemma {:induction false} SelectTwice<T(!new)>(p: T -> bool, q: T -> bool, both: T -> bool, s: seq<T>)
    requires forall x :: x in s ==> both(x) == (p(x) && q(x))
    ensures Select(both, s) == Select(p, Select(q, s))
  {
    if s != [] {
      var front, last := s[..|s| - 1], s[|s| - 1];
      assert s == front + [last];
      SelectTwice(p, q, both, front);
      Snoc(Select(q, front), last);
    }
  }

  lemma SelectEither<T(!new)>(p: T -> bool, q: T -> bool, both: T -> bool, either: T -> bool, s: seq<T>)
    requires forall x :: x in s ==> both(x) == (p(x) && q(x)) && either(x) == (p(x) || q(x))
    ensures multiset(Select(either, s)) + multiset(Select(both, s)) == multiset(Select(p, s)) + multiset(Select(q, s))
  {
    BagSelect(p, s);
    BagSelect(q, s);
    BagSelect(both, s);
    BagSelect(either, s);
    forall x
      ensures multiset(Select(either, s))[x] + multiset(Select(both, s))[x]
           == multiset(Select(p, s))[x] + multiset(Select(q, s))[x]
    {
      assert x in s <==> multiset(s)[x] > 0;
    }
  }

  /** The condition as a property of rows. */
  function Where(pred: FilterExpr, schema: Schema): Row -> bool {
    (row: Row) => EvalPredicate(row, pred, schema)
  }

  lemma FilterIsSelect(pred: FilterExpr, schema: Schema, rows: seq<Row>)
    ensures FilterRows(pred, schema, rows) == Select(Where(pred, schema), rows)
  {
    SelectAgrees((row: Row) => EvalPredicate(row, pred, schema), Where(pred, schema), rows);
  }

  /** AND filters by one condition what the other leaves, and OR and AND together keep as many rows as the two
      conditions do. */
  lemma ConnectivesMean(a: FilterExpr, b: FilterExpr, schema: Schema, rows: seq<Row>)
    ensures FilterRows(And(a, b), schema, rows) == FilterRows(a, schema, FilterRows(b, schema, rows))
    ensures multiset(FilterRows(Or(a, b), schema, rows)) + multiset(FilterRows(And(a, b), schema, rows))
         == multiset(FilterRows(a, schema, rows)) + multiset(FilterRows(b, schema, rows))
  {
    var p, q, both, either := Where(a, schema), Where(b, schema), Where(And(a, b), schema), Where(Or(a, b), schema);
    FilterIsSelect(a, schema, rows);
    FilterIsSelect(b, schema, rows);
    FilterIsSelect(And(a, b), schema, rows);
    FilterIsSelect(Or(a, b), schema, rows);
    FilterIsSelect(a, schema, FilterRows(b, schema, rows));
    SelectTwice(p, q, both, rows);
    SelectEither(p, q, both, either, rows);
  }

  /** TRUE keeps all rows and FALSE none. */
  lemma LiteralsMean(schema: Schema, rows: seq<Row>)
    ensures FilterRows(Literal(true), schema, rows) == rows && FilterRows(Literal(false), schema, rows) == []
  {
    FilterIsSelect(Literal(true), schema, rows);
    FilterIsSelect(Literal(false), schema, rows);
    SelectAll(Where(Literal(true), schema), rows);
    SelectNone(Where(Literal(false), schema), rows);
  }

  // ----- the select list

  /** Executing a projection: for each row, in order, the cells of the named columns that it has. */
  lemma ProjectMeans(cfg: Config, db: Db, input: PlanNode, names: seq<string>, schema: Schema, rows: seq<Row>)
    requires RowsOf(Exec(cfg, db, input).1) == Success(rows)
    requires ScanMeta(db, input).Success? && ScanMeta(db, input).value.schema == schema
    ensures
      var answer := RowsOf(Exec(cfg, db, Project(input, names)).1);
      && answer.Success? && |answer.value| == |rows|
      && forall k :: 0 <= k < |rows| ==> answer.value[k] == CellsNamed(schema, names, rows[k])
  {
    RowsComeFromQueries(cfg, db, input);
    QueryKeepsMeta(cfg, db, input);
    forall k | 0 <= k < |rows| ensures ProjectRow(names, schema, rows[k]) == CellsNamed(schema, names, rows[k]) {
      ProjectRowMeans(names, schema, rows[k]);
    }
  }

  predicate HasColumn(schema: Schema, row: Row, name: string) {
    name in schema.nameToIndex && schema.nameToIndex[name] < |row|
  }

  function CellsNamed(schema: Schema, names: seq<string>, row: Row): seq<Value> {
    Map((name: string) => if HasColumn(schema, row, name) then row[schema.nameToIndex[name]] else Null,
        Select((name: string) => HasColumn(schema, row, name), names))
  }

  lemma {:induction false} ProjectRowMeans(names: seq<string>, schema: Schema, row: Row)
    ensures ProjectRow(names, schema, row) == CellsNamed(schema, names, row)
  {
    if names != [] {
      var front, last := names[..|names| - 1], names[|names| - 1];
      ProjectRowMeans(front, schema, row);
      MapConcat((name: string) => if HasColumn(schema, row, name) then row[schema.nameToIndex[name]] else Null,
                Select((name: string) => HasColumn(schema, row, name), front), [last]);
    }
  }

  // ----- aggregates

  /** The rows that have a cell at `i` which is not Null. */
  function RowsWithCell(rows: seq<Row>, i: nat): seq<Row> {
    Select((row: Row) => i < |row| && row[i] != Null, rows)
  }

  lemma {:induction false} IntegersMean(rows: seq<Row>, i: nat)
    ensures forall x :: x in Ints(Cells(rows, i)) <==> exists row: Row :: row in rows && i < |row| && row[i] == Int64(x)
    ensures |Ints(Cells(rows, i))| == |Select((row: Row) => HasInteger(row, i), rows)|
  {
    if rows != [] {
      var front, last := rows[..|rows| - 1], rows[|rows| - 1];
      assert rows == front + [last];
      IntegersMean(front, i);
      assert Cells(rows, i)[..|rows| - 1] == Cells(front, i);
      assert Ints(Cells(rows, i))
          == if HasInteger(last, i) then Ints(Cells(front, i)) + [last[i].i] else Ints(Cells(front, i));
    }
  }

  lemma {:induction false} NonNullMeans(rows: seq<Row>, i: nat)
    ensures NonNull(Cells(rows, i)) == |RowsWithCell(rows, i)| <= |rows|
  {
    if rows != [] {
      NonNullMeans(rows[..|rows| - 1], i);
      assert Cells(rows, i)[..|rows| - 1] == Cells(rows[..|rows| - 1], i);
    }
  }

  /** COUNT(*) counts rows, and COUNT of a column those that have a cell there which is not Null. */
  lemma CountMeans(rows: seq<Row>, schema: Schema, c: string, i: nat)
    requires ColumnIndex(schema, c) == Some(i) && |rows| <= I64_MAX
    ensures |RowsWithCell(rows, i)| <= I64_MAX
    ensures RowAggregate(rows, schema, CountStar) == Success(Int64(|rows|))
    ensures RowAggregate(rows, schema, Count(c)) == Success(Int64(|RowsWithCell(rows, i)|))
  {
    NonNullMeans(rows, i);
    SmallCount(|rows|);
    SmallCount(|RowsWithCell(rows, i)|);
  }

  ghost predicate HasIntegers(rows: seq<Row>, i: nat) {
    exists row :: row in rows && HasInteger(row, i)
  }

  lemma HasIntegersIff(rows: seq<Row>, i: nat)
    ensures HasIntegers(rows, i) <==> Ints(Cells(rows, i)) != []
  {
    NoIntegers(rows, i);
  }

  /** MIN is an integer of the column that none is below, MAX one that none is above; both are Null if the
      column has no integer. */
  lemma ExtremesMean(rows: seq<Row>, schema: Schema, c: string, i: nat)
    requires ColumnIndex(schema, c) == Some(i)
    ensures
      var min, max := RowAggregate(rows, schema, Min(c)), RowAggregate(rows, schema, Max(c));
      && min.Success? && max.Success?
      && (!HasIntegers(rows, i) ==> min.value == Null && max.value == Null)
      && (HasIntegers(rows, i) ==>
            && (exists row: Row :: row in rows && i < |row| && row[i] == min.value)
            && (exists row: Row :: row in rows && i < |row| && row[i] == max.value)
            && min.value.Int64? && max.value.Int64?
            && forall row: Row :: row in rows && HasInteger(row, i) ==> min.value.i <= row[i].i <= max.value.i)
  {
    var ints := Ints(Cells(rows, i));
    HasIntegersIff(rows, i);
    IntegersMean(rows, i);
    if ints != [] {
      assert ints[0] in ints;
      assert MinOf(ints) in ints && MaxOf(ints) in ints;
    }
  }

  /** SUM, if the column has an integer, is the integers added up from the first row to the last, held at the
      64-bit bounds after each; within them it is their exact sum. */
  lemma SumMeans(rows: seq<Row>, schema: Schema, c: string, i: nat)
    requires ColumnIndex(schema, c) == Some(i)
    ensures
      var sum := RowAggregate(rows, schema, Sum(c));
      && sum.Success?
      && (!HasIntegers(rows, i) ==> sum.value == Null)
      && (HasIntegers(rows, i) ==> sum.value == Int64(RunningSum(rows, i)))
      && (HasIntegers(rows, i) && TotalAbs(Ints(Cells(rows, i))) <= I64_MAX ==>
            sum.value.Int64? && sum.value.i == Weight(IntAt(i), rows))
  {
    HasIntegersIff(rows, i);
    RunningSumMeans(rows, i);
    WeightIsTotal(i, rows);
    if TotalAbs(Ints(Cells(rows, i))) <= I64_MAX {
      SmallColumns(Ints(Cells(rows, i)));
    }
  }

  function RunningSum(rows: seq<Row>, i: nat): i64 {
    if rows == [] then 0
    else
      var before, row := RunningSum(rows[..|rows| - 1], i), rows[|rows| - 1];
      var sum := before + if HasInteger(row, i) then row[i].i else 0;
      if sum > I64_MAX then I64_MAX else if sum < I64_MIN then I64_MIN else sum
  }

  lemma {:induction false} RunningSumMeans(rows: seq<Row>, i: nat)
    ensures RunningSum(rows, i) == SaturatingSum(Ints(Cells(rows, i)))
  {
    if rows != [] {
      var front, last := rows[..|rows| - 1], rows[|rows| - 1];
      RunningSumMeans(front, i);
      assert Cells(rows, i)[..|rows| - 1] == Cells(front, i);
      if HasInteger(last, i) {
        Snoc(Ints(Cells(front, i)), last[i].i);
      }
    }
  }

  /** AVG is the exact sum of the integers divided by their number, in lowest terms. */
  lemma AverageMeans(rows: seq<Row>, schema: Schema, c: string, i: nat)
    requires ColumnIndex(schema, c) == Some(i)
    ensures
      var mean, n := RowAggregate(rows, schema, Avg(c)), |Select((row: Row) => HasInteger(row, i), rows)|;
      && mean.Success?
      && (n == 0 ==> mean.value == Null)
      && (n > 0 ==> IsQuotient(mean.value, Weight(IntAt(i), rows), n))
  {
    IntegersMean(rows, i);
    WeightIsTotal(i, rows);
    if Ints(Cells(rows, i)) != [] {
      MeanIsQuotient(Total(Ints(Cells(rows, i))), |Ints(Cells(rows, i))|);
    }
  }
}
