/** What ORDER BY returns, read off the cells of its rows. */
module OrderMeaning {
  import Lex
  import opened Catalogs
  import opened Engine
  import opened Plans
  import opened Refinement
  import opened RowOrder
  import opened Schemas
  import opened Seqs
  import opened Sorting
  import opened Values

  /** A row too short for the cell comes before the others, the lesser integer or string before the greater. */
  predicate Precedes(a: Option<Value>, b: Option<Value>) {
    b.Some? && (a.None? || IsAbove(b.value, a.value))
  }

  predicate Apart(a: Option<Value>, b: Option<Value>) {
    Precedes(a, b) || Precedes(b, a)
  }

  predicate ApartAt(p: (nat, bool), a: Row, b: Row) {
    Apart(Cell(a, p.0), Cell(b, p.0))
  }

  /** The rows stand as one column asks, `false` reversing it. */
  predicate PlacedBy(p: (nat, bool), a: Row, b: Row) {
    if p.1 then Precedes(Cell(a, p.0), Cell(b, p.0)) else Precedes(Cell(b, p.0), Cell(a, p.0))
  }

  /** Column `k` is the first that tells the rows apart. */
  predicate FirstApart(order: seq<(nat, bool)>, k: nat, a: Row, b: Row)
    requires k < |order|
  {
    ApartAt(order[k], a, b) && forall j :: 0 <= j < k ==> !ApartAt(order[j], a, b)
  }

  /** The first column that tells the rows apart, if there is one, has them the right way round. */
  predicate RightWayRound(order: seq<(nat, bool)>, a: Row, b: Row) {
    forall k :: 0 <= k < |order| && FirstApart(order, k, a, b) ==> PlacedBy(order[k], a, b)
  }

  predicate NeverApart(order: seq<(nat, bool)>, a: Row, b: Row) {
    forall p :: p in order ==> !ApartAt(p, a, b)
  }

  // ----- the comparator

  lemma CellsMean(a: Option<Value>, b: Option<Value>)
    ensures CompareCells(a, b) == Less <==> Precedes(a, b)
    ensures CompareCells(a, b) == Greater <==> Precedes(b, a)
    ensures !(Precedes(a, b) && Precedes(b, a))
  {
    if a.Some? && b.Some? {
      CompareMeans(a.value, b.value);
    }
  }

  /** The comparator says which row the first column that tells them apart puts first. */
  lemma {:induction false} RowsMean(order: seq<(nat, bool)>, a: Row, b: Row)
    ensures CompareRows(order, a, b) == Equal <==> NeverApart(order, a, b)
    ensures forall k :: 0 <= k < |order| && FirstApart(order, k, a, b) ==>
      (CompareRows(order, a, b) == Less <==> PlacedBy(order[k], a, b))
  {
    if order != [] {
      var p, rest := order[0], order[1..];
      CellsMean(Cell(a, p.0), Cell(b, p.0));
      RowsMean(rest, a, b);
      assert order == [p] + rest;
      assert forall q :: q in order <==> q == p || q in rest;
      assert NeverApart(order, a, b) <==> !ApartAt(p, a, b) && NeverApart(rest, a, b);
      forall k | 0 <= k < |order| && FirstApart(order, k, a, b)
        ensures CompareRows(order, a, b) == Less <==> PlacedBy(order[k], a, b)
      {
        if k > 0 {
          assert !ApartAt(order[0], a, b);
          assert FirstApart(rest, k - 1, a, b);
        }
      }
    }
  }

  lemma InOrderMeans(order: seq<(nat, bool)>, r: seq<Row>)
    requires InOrder(Before(order), r)
    ensures forall p, q :: 0 <= p < q < |r| ==> RightWayRound(order, r[p], r[q])
  {
    forall p, q | 0 <= p < q < |r| ensures RightWayRound(order, r[p], r[q]) {
      RowsMean(order, r[p], r[q]);
      RowsReverse(order, r[p], r[q]);
      assert !Before(order)(r[q], r[p]);
      forall k | 0 <= k < |order| && FirstApart(order, k, r[p], r[q]) ensures PlacedBy(order[k], r[p], r[q]) {
        assert order[k] in order;
      }
    }
  }

  lemma TiesMean(order: seq<(nat, bool)>, x: Row, rows: seq<Row>)
    ensures TiedWith(Before(order), x, rows) == Select((y: Row) => NeverApart(order, x, y), rows)
  {
    forall y: Row | y in rows ensures Tied(Before(order), x, y) == NeverApart(order, x, y) {
      RowsMean(order, x, y);
      RowsReverse(order, x, y);
    }
    SelectAgrees((y: Row) => Tied(Before(order), x, y), (y: Row) => NeverApart(order, x, y), rows);
  }

  /** The same rows, each two of them the right way round, and rows that no column tells apart as they were. */
  ghost predicate IsOrderedBy(order: seq<(nat, bool)>, r: seq<Row>, rows: seq<Row>) {
    && multiset(r) == multiset(rows)
    && (forall p, q :: 0 <= p < q < |r| ==> RightWayRound(order, r[p], r[q]))
    && (forall x :: x in rows ==>
          Select((y: Row) => NeverApart(order, x, y), r) == Select((y: Row) => NeverApart(order, x, y), rows))
  }

  lemma SortMeans(order: seq<(nat, bool)>, rows: seq<Row>)
    requires Comparable(rows, order)
    ensures IsOrderedBy(order, StableSort(Before(order), rows), rows)
  {
    var r := StableSort(Before(order), rows);
    ComparatorIsWeakOrder(rows, order);
    SortIsStable(Before(order), rows);
    InOrderMeans(order, r);
    forall x | x in rows
      ensures Select((y: Row) => NeverApart(order, x, y), r) == Select((y: Row) => NeverApart(order, x, y), rows)
    {
      TiesMean(order, x, r);
      TiesMean(order, x, rows);
    }
  }

  // ----- the statement

  /** Each ordering column by its position in the table, with its direction. */
  predicate Resolves(schema: Schema, order: seq<(string, bool)>, cols: seq<(nat, bool)>) {
    && |cols| == |order|
    && forall k :: 0 <= k < |order| ==> ColumnIndex(schema, order[k].0) == Some(cols[k].0) && cols[k].1 == order[k].1
  }

  lemma {:induction false} OrderIndicesMean(schema: Schema, order: seq<(string, bool)>)
    ensures OrderIndices(schema, order).Success? ==> Resolves(schema, order, OrderIndices(schema, order).value)
    ensures OrderIndices(schema, order).Success? <==>
      forall k :: 0 <= k < |order| ==> ColumnIndex(schema, order[k].0).Some?
    ensures forall k :: 0 <= k < |order| && FirstUnknown(schema, order, k) ==>
      OrderIndices(schema, order) == Failure(ColumnNotFound(order[k].0))
  {
    if order != [] {
      OrderIndicesMean(schema, order[1..]);
      assert forall k :: 1 <= k < |order| ==> order[k] == order[1..][k - 1];
      forall k | 0 <= k < |order| && FirstUnknown(schema, order, k)
        ensures OrderIndices(schema, order) == Failure(ColumnNotFound(order[k].0))
      {
        if k > 0 {
          assert FirstUnknown(schema, order[1..], k - 1);
        }
      }
    }
  }

  predicate FirstUnknown(schema: Schema, order: seq<(string, bool)>, k: nat)
    requires k < |order|
  {
    ColumnIndex(schema, order[k].0).None? && forall j :: 0 <= j < k ==> ColumnIndex(schema, order[j].0).Some?
  }

  lemma ResolvedOnce(schema: Schema, order: seq<(string, bool)>, a: seq<(nat, bool)>, b: seq<(nat, bool)>)
    requires Resolves(schema, order, a) && Resolves(schema, order, b)
    ensures a == b
  {
    assert forall k :: 0 <= k < |a| ==> a[k] == b[k];
  }

  lemma OrderByReadsInput(cfg: Config, db: Db, input: PlanNode, order: seq<(string, bool)>, meta: TableMeta,
                          rows: seq<Row>)
    requires RowsOf(Exec(cfg, db, input).1) == Success(rows) && ScanMeta(db, input) == Success(meta)
    ensures RowsOf(Exec(cfg, db, OrderBy(input, order)).1) == OrderRows(meta.schema, order, rows)
  {
    RowsComeFromQueries(cfg, db, input);
    QueryKeepsMeta(cfg, db, input);
  }

  /** Executing ORDER BY over orderable columns: the input's rows, the first column that tells two of them
      apart having them the right way round, and the others as they came. The first unknown column is an error. */
  lemma OrderByMeans(cfg: Config, db: Db, input: PlanNode, order: seq<(string, bool)>, meta: TableMeta,
                     rows: seq<Row>)
    requires RowsOf(Exec(cfg, db, input).1) == Success(rows) && ScanMeta(db, input) == Success(meta)
    ensures
      var answer := RowsOf(Exec(cfg, db, OrderBy(input, order)).1);
      && (answer.Success? <==> forall k :: 0 <= k < |order| ==> ColumnIndex(meta.schema, order[k].0).Some?)
      && (forall k :: 0 <= k < |order| && FirstUnknown(meta.schema, order, k) ==>
            answer == Failure(ColumnNotFound(order[k].0)))
      && forall cols :: Resolves(meta.schema, order, cols) && Comparable(rows, cols) ==>
           answer.Success? && IsOrderedBy(cols, answer.value, rows)
  {
    OrderByReadsInput(cfg, db, input, order, meta, rows);
    OrderIndicesMean(meta.schema, order);
    forall cols | Resolves(meta.schema, order, cols) && Comparable(rows, cols)
      ensures
        var answer := RowsOf(Exec(cfg, db, OrderBy(input, order)).1);
        answer.Success? && IsOrderedBy(cols, answer.value, rows)
    {
      assert forall k :: 0 <= k < |order| ==> ColumnIndex(meta.schema, order[k].0).Some?;
      ResolvedOnce(meta.schema, order, cols, OrderIndices(meta.schema, order).value);
      SortMeans(cols, rows);
    }
  }

  /** Two rows as one column of integers, or of strings, has them: short rows first, then by the cell. */
  predicate Ascends(i: nat, a: Row, b: Row) {
    if i >= |a| || i >= |b| then i < |a| ==> i < |b|
    else if a[i].Int64? && b[i].Int64? then a[i].i <= b[i].i
    else a[i].Str? && b[i].Str? && Lex.Le(a[i].s, b[i].s)
  }

  lemma OneColumnPlaced(i: nat, asc: bool, a: Row, b: Row)
    requires RightWayRound([(i, asc)], a, b)
    requires i < |a| && i < |b| ==> (a[i].Int64? && b[i].Int64?) || (a[i].Str? && b[i].Str?)
    ensures if asc then Ascends(i, a, b) else Ascends(i, b, a)
  {
    var order := [(i, asc)];
    assert ApartAt(order[0], a, b) ==> FirstApart(order, 0, a, b);
    if i < |a| && i < |b| && a[i].Str? {
      Lex.LtIsTotal(a[i].s, b[i].s);
    }
  }

  /** ORDER BY of one column that holds integers, or strings: each row's cell is at most the next one's, or
      at least with DESC, and rows too short for the cell come first, or last with DESC. */
  lemma OneColumnAscends(cfg: Config, db: Db, input: PlanNode, name: string, asc: bool, meta: TableMeta,
                         rows: seq<Row>, i: nat)
    requires RowsOf(Exec(cfg, db, input).1) == Success(rows) && ScanMeta(db, input) == Success(meta)
    requires ColumnIndex(meta.schema, name) == Some(i) && (AllIntegers(rows, i) || AllStrings(rows, i))
    ensures
      var answer := RowsOf(Exec(cfg, db, OrderBy(input, [(name, asc)])).1);
      && answer.Success? && multiset(answer.value) == multiset(rows)
      && forall p, q :: 0 <= p < q < |answer.value| ==>
           if asc then Ascends(i, answer.value[p], answer.value[q]) else Ascends(i, answer.value[q], answer.value[p])
  {
    OneKindIsOrderable(rows, i);
    OrderByMeans(cfg, db, input, [(name, asc)], meta, rows);
    assert Resolves(meta.schema, [(name, asc)], [(i, asc)]) && Comparable(rows, [(i, asc)]);
    var r := RowsOf(Exec(cfg, db, OrderBy(input, [(name, asc)])).1).value;
    SameMembers(r, rows);
    forall p, q | 0 <= p < q < |r| ensures if asc then Ascends(i, r[p], r[q]) else Ascends(i, r[q], r[p]) {
      assert r[p] in rows && r[q] in rows;
      OneColumnPlaced(i, asc, r[p], r[q]);
    }
  }
}
