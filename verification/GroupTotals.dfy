/** The COUNT(*) and SUM cells of grouped rows, against the same aggregates over all rows. */
module GroupTotals {
  import opened Aggregates
  import opened Columnar
  import opened Engine
  import opened Grouping
  import opened Plans
  import opened Saturation
  import opened Schemas
  import opened Seqs
  import opened Values
  import Lex

  /** The cell of the `j`-th of `width` aggregates, which stand last in a grouped row. */
  function AggregateCell(row: Row, width: nat, j: nat): Value
    requires j < width <= |row|
  {
    row[|row| - width + j]
  }

  function IntegerIn(v: Value): int {
    if v.Int64? then v.i else 0
  }

  predicate AllWide(out: seq<Row>, width: nat) {
    forall n :: 0 <= n < |out| ==> width <= |out[n]|
  }

  /** The integers under the `j`-th aggregate, added up. */
  function CellTotal(out: seq<Row>, width: nat, j: nat): int
    requires j < width && AllWide(out, width)
  {
    if out == [] then 0
    else CellTotal(out[..|out| - 1], width, j) + IntegerIn(AggregateCell(out[|out| - 1], width, j))
  }

  lemma {:induction false} AggregatesAt(rows: seq<Row>, schema: Schema, aggs: seq<AggExpr>, j: nat)
    requires j < |aggs| && RowAggregates(rows, schema, aggs).Success?
    ensures |RowAggregates(rows, schema, aggs).value| == |aggs|
    ensures RowAggregate(rows, schema, aggs[j]) == Success(RowAggregates(rows, schema, aggs).value[j])
  {
    if j > 0 {
      AggregatesAt(rows, schema, aggs[1..], j - 1);
    } else if |aggs| > 1 {
      AggregatesAt(rows, schema, aggs[1..], 0);
    }
  }

  /** A grouped row is its key cells and then the aggregates of its group. */
  lemma {:induction false} GroupResultAt(schema: Schema, aggs: seq<AggExpr>, groups: Groups, keys: seq<Lex.Key>, n: nat)
    requires (forall k :: k in keys ==> k in groups) && GroupResults(schema, aggs, groups, keys).Success?
    requires n < |keys|
    ensures
      var out, values := GroupResults(schema, aggs, groups, keys).value, RowAggregates(groups[keys[n]].1, schema, aggs);
      |out| == |keys| && values.Success? && out[n] == groups[keys[n]].0 + values.value
  {
    if n > 0 {
      GroupResultAt(schema, aggs, groups, keys[1..], n - 1);
    } else if |keys| > 1 {
      GroupResultAt(schema, aggs, groups, keys[1..], 0);
    }
  }

  lemma GroupedRowAt(schema: Schema, aggs: seq<AggExpr>, groups: Groups, keys: seq<Lex.Key>, n: nat, j: nat)
    requires (forall k :: k in keys ==> k in groups) && GroupResults(schema, aggs, groups, keys).Success?
    requires n < |keys| && j < |aggs|
    ensures
      var out := GroupResults(schema, aggs, groups, keys).value;
      && |out| == |keys| && |aggs| <= |out[n]|
      && RowAggregate(groups[keys[n]].1, schema, aggs[j]) == Success(AggregateCell(out[n], |aggs|, j))
  {
    GroupResultAt(schema, aggs, groups, keys, n);
    AggregatesAt(groups[keys[n]].1, schema, aggs, j);
  }

  /** The `j`-th aggregate of every grouped row is that of the rows with its key. */
  lemma GroupedRows(render: Renderer, schema: Schema, indices: seq<nat>, aggs: seq<AggExpr>, rows: seq<Row>,
                    out: seq<Row>, j: nat)
    requires j < |aggs|
    requires
      var g := GroupRows(render, indices, rows);
      GroupResults(schema, aggs, g, Lex.Sorted(g.Keys)) == Success(out)
    ensures
      var keys := Lex.Sorted(GroupRows(render, indices, rows).Keys);
      && |out| == |keys| && AllWide(out, |aggs|)
      && forall n :: 0 <= n < |keys| ==>
           RowAggregate(WithKey(render, indices, keys[n], rows), schema, aggs[j])
             == Success(AggregateCell(out[n], |aggs|, j))
  {
    var g := GroupRows(render, indices, rows);
    var keys := Lex.Sorted(g.Keys);
    GroupsByKey(render, indices, rows);
    forall n | 0 <= n < |keys|
      ensures |out| == |keys| && |aggs| <= |out[n]|
      ensures RowAggregate(WithKey(render, indices, keys[n], rows), schema, aggs[j])
        == Success(AggregateCell(out[n], |aggs|, j))
    {
      assert keys[n] in keys;
      GroupedRowAt(schema, aggs, g, keys, n, j);
    }
    if keys == [] {
      assert out == [];
    }
  }

  /** If each row's cell weighs what its group weighs, the cells together weigh what the groups weigh. */
  lemma {:induction false} CellsWeigh(w: Row -> int, render: Renderer, indices: seq<nat>, keys: seq<Lex.Key>,
                                      rows: seq<Row>, out: seq<Row>, width: nat, j: nat)
    requires j < width && |out| == |keys| && AllWide(out, width)
    requires forall n :: 0 <= n < |keys| ==>
      IntegerIn(AggregateCell(out[n], width, j)) == Weight(w, WithKey(render, indices, keys[n], rows))
    ensures CellTotal(out, width, j) == GroupWeights(w, render, indices, keys, rows)
  {
    if keys != [] {
      CellsWeigh(w, render, indices, keys[..|keys| - 1], rows, out[..|keys| - 1], width, j);
    }
  }

  lemma KeysCover(render: Renderer, indices: seq<nat>, rows: seq<Row>)
    ensures
      var keys := Lex.Sorted(GroupRows(render, indices, rows).Keys);
      Lex.Increasing(keys) && forall row :: row in rows ==> KeyOf(render, indices, row) in keys
  {
    GroupsByKey(render, indices, rows);
  }

  /** What weighs the same cell by cell adds up to the weight of all rows. */
  lemma CellsAddUp(w: Row -> int, render: Renderer, indices: seq<nat>, rows: seq<Row>, out: seq<Row>, width: nat,
                   j: nat)
    requires var keys := Lex.Sorted(GroupRows(render, indices, rows).Keys);
      && j < width && |out| == |keys| && AllWide(out, width)
      && forall n :: 0 <= n < |keys| ==>
           IntegerIn(AggregateCell(out[n], width, j)) == Weight(w, WithKey(render, indices, keys[n], rows))
    ensures CellTotal(out, width, j) == Weight(w, rows)
  {
    var keys := Lex.Sorted(GroupRows(render, indices, rows).Keys);
    CellsWeigh(w, render, indices, keys, rows, out, width, j);
    KeysCover(render, indices, rows);
    GroupsAddUp(w, render, indices, keys, rows);
  }

  lemma GroupIsSmaller(render: Renderer, indices: seq<nat>, key: Lex.Key, rows: seq<Row>)
    ensures |WithKey(render, indices, key, rows)| <= |rows|
  {
    SelectSameLength((row: Row) => KeyOf(render, indices, row) == key, (row: Row) => true, rows);
    SelectAll((row: Row) => true, rows);
  }

  lemma SmallCount(n: nat)
    requires n <= I64_MAX
    ensures AsI64(n) == n
  {
  }

  /** The COUNT(*) cells of a GROUP BY add up to COUNT(*) over all its rows. */
  lemma CountCellsAddUp(render: Renderer, schema: Schema, keys: seq<string>, aggs: seq<AggExpr>, rows: seq<Row>,
                        out: seq<Row>, j: nat)
    requires GroupByRows(render, schema, keys, aggs, rows) == Success(out) && |rows| <= I64_MAX
    requires j < |aggs| && aggs[j].CountStar?
    ensures AllWide(out, |aggs|)
    ensures RowAggregate(rows, schema, CountStar) == Success(Int64(|rows|)) && CellTotal(out, |aggs|, j) == |rows|
  {
    var indices := Indices(schema, keys).value;
    var one := (row: Row) => 1;
    GroupedRows(render, schema, indices, aggs, rows, out, j);
    var sorted := Lex.Sorted(GroupRows(render, indices, rows).Keys);
    forall n | 0 <= n < |sorted|
      ensures IntegerIn(AggregateCell(out[n], |aggs|, j)) == Weight(one, WithKey(render, indices, sorted[n], rows))
    {
      WeightIsCount(WithKey(render, indices, sorted[n], rows));
      GroupIsSmaller(render, indices, sorted[n], rows);
      SmallCount(|WithKey(render, indices, sorted[n], rows)|);
    }
    CellsAddUp(one, render, indices, rows, out, |aggs|, j);
    WeightIsCount(rows);
    SmallCount(|rows|);
  }

  lemma GroupSumIsWeight(render: Renderer, indices: seq<nat>, key: Lex.Key, rows: seq<Row>, i: nat)
    requires TotalAbs(Ints(Cells(rows, i))) <= I64_MAX
    ensures var part := WithKey(render, indices, key, rows);
      SaturatingSum(Ints(Cells(part, i))) == Weight(IntAt(i), part)
  {
    var part := WithKey(render, indices, key, rows);
    PartWeighsLess(AbsAt(i), (row: Row) => KeyOf(render, indices, row) == key, rows);
    WeightIsTotal(i, rows);
    WeightIsTotal(i, part);
    SmallColumns(Ints(Cells(part, i)));
  }

  predicate HasInteger(row: Row, i: nat) {
    i < |row| && row[i].Int64?
  }

  lemma {:induction false} NoIntegers(rows: seq<Row>, i: nat)
    ensures Ints(Cells(rows, i)) == [] <==> forall row :: row in rows ==> !HasInteger(row, i)
  {
    if rows != [] {
      var n := |rows| - 1;
      assert forall row :: row in rows <==> row in rows[..n] || row == rows[n] by {
        assert rows == rows[..n] + [rows[n]];
      }
      NoIntegers(rows[..n], i);
      assert Cells(rows, i)[..n] == Cells(rows[..n], i);
      var before := Ints(Cells(rows[..n], i));
      assert Ints(Cells(rows, i)) == if HasInteger(rows[n], i) then before + [rows[n][i].i] else before;
    }
  }

  /** There is no integer in the rows exactly if there is none in any group. */
  lemma NoGroupHasIntegers(render: Renderer, indices: seq<nat>, rows: seq<Row>, i: nat)
    ensures
      var keys := Lex.Sorted(GroupRows(render, indices, rows).Keys);
      Ints(Cells(rows, i)) == [] <==>
      forall n :: 0 <= n < |keys| ==> Ints(Cells(WithKey(render, indices, keys[n], rows), i)) == []
  {
    var keys := Lex.Sorted(GroupRows(render, indices, rows).Keys);
    NoIntegers(rows, i);
    KeysCover(render, indices, rows);
    forall n | 0 <= n < |keys|
      ensures Ints(Cells(WithKey(render, indices, keys[n], rows), i)) == []
         <==> forall row :: row in WithKey(render, indices, keys[n], rows) ==> !HasInteger(row, i)
    {
      NoIntegers(WithKey(render, indices, keys[n], rows), i);
    }
    if forall n :: 0 <= n < |keys| ==> Ints(Cells(WithKey(render, indices, keys[n], rows), i)) == [] {
      forall row | row in rows ensures !HasInteger(row, i) {
        var n :| 0 <= n < |keys| && keys[n] == KeyOf(render, indices, row);
        assert row in WithKey(render, indices, keys[n], rows);
      }
    }
  }

  /** The SUM cells of a GROUP BY, Null for a group without integers, add up to SUM over all its rows. */
  lemma SumCellsAddUp(render: Renderer, schema: Schema, keys: seq<string>, aggs: seq<AggExpr>, rows: seq<Row>,
                      out: seq<Row>, j: nat)
    requires GroupByRows(render, schema, keys, aggs, rows) == Success(out)
    requires j < |aggs| && aggs[j].Sum? && ColumnIndex(schema, aggs[j].column).Some?
    requires TotalAbs(Ints(Cells(rows, ColumnIndex(schema, aggs[j].column).value))) <= I64_MAX
    ensures AllWide(out, |aggs|)
    ensures
      var ints := Ints(Cells(rows, ColumnIndex(schema, aggs[j].column).value));
      var sum := RowAggregate(rows, schema, aggs[j]);
      sum.Success? && CellTotal(out, |aggs|, j) == IntegerIn(sum.value) == Total(ints)
  {
    var indices, i := Indices(schema, keys).value, ColumnIndex(schema, aggs[j].column).value;
    GroupedRows(render, schema, indices, aggs, rows, out, j);
    var sorted := Lex.Sorted(GroupRows(render, indices, rows).Keys);
    forall n | 0 <= n < |sorted|
      ensures IntegerIn(AggregateCell(out[n], |aggs|, j)) == Weight(IntAt(i), WithKey(render, indices, sorted[n], rows))
    {
      GroupSumIsWeight(render, indices, sorted[n], rows, i);
    }
    CellsAddUp(IntAt(i), render, indices, rows, out, |aggs|, j);
    WeightIsTotal(i, rows);
    SmallColumns(Ints(Cells(rows, i)));
  }

  /** SUM over all rows is Null exactly if every SUM cell is. */
  lemma SumCellsNull(render: Renderer, schema: Schema, keys: seq<string>, aggs: seq<AggExpr>, rows: seq<Row>,
                     out: seq<Row>, j: nat)
    requires GroupByRows(render, schema, keys, aggs, rows) == Success(out)
    requires j < |aggs| && aggs[j].Sum? && ColumnIndex(schema, aggs[j].column).Some?
    ensures AllWide(out, |aggs|)
    ensures RowAggregate(rows, schema, aggs[j]) == Success(Null)
       <==> forall n :: 0 <= n < |out| ==> AggregateCell(out[n], |aggs|, j).Null?
  {
    var indices, i := Indices(schema, keys).value, ColumnIndex(schema, aggs[j].column).value;
    GroupedRows(render, schema, indices, aggs, rows, out, j);
    NoGroupHasIntegers(render, indices, rows, i);
  }
}
