/** Aggregates and groups of the same rows in another order. */
module BagAggregates {
  import opened Aggregates
  import opened Columnar
  import opened Engine
  import opened Grouping
  import opened Plans
  import opened Saturation
  import opened Schemas
  import opened Seqs
  import opened Values
  import Lex

  // ----- weights

  lemma {:induction false} WeightConcat(w: Row -> int, a: seq<Row>, b: seq<Row>)
    ensures Weight(w, a + b) == Weight(w, a) + Weight(w, b)
  {
    if b == [] {
      assert a + b == a;
    } else {
      assert (a + b)[..|a + b| - 1] == a + b[..|b| - 1];
      WeightConcat(w, a, b[..|b| - 1]);
    }
  }

  lemma WeightOfOne(w: Row -> int, row: Row)
    ensures Weight(w, [row]) == w(row)
  {
    assert [row][..0] == [];
  }

  lemma WeightInMiddle(w: Row -> int, a: seq<Row>, row: Row, b: seq<Row>)
    ensures Weight(w, (a + [row]) + b) == Weight(w, a + b) + w(row)
  {
    WeightConcat(w, a + [row], b);
    WeightConcat(w, a, [row]);
    WeightConcat(w, a, b);
    WeightOfOne(w, row);
  }

  lemma SplitOut<T>(s: seq<T>, i: nat)
    requires i < |s|
    ensures (s[..i] + [s[i]]) + s[i + 1..] == s
  {
  }

  lemma WeightWithout(w: Row -> int, rows: seq<Row>, i: nat)
    requires i < |rows|
    ensures Weight(w, rows) == Weight(w, Without(rows, i)) + w(rows[i])
  {
    SplitOut(rows, i);
    WeightInMiddle(w, rows[..i], rows[i], rows[i + 1..]);
  }

  /** What rows weigh together does not depend on their order. */
  lemma {:induction false} WeightAgrees(w: Row -> int, a: seq<Row>, b: seq<Row>)
    requires multiset(a) == multiset(b)
    ensures Weight(w, a) == Weight(w, b)
    decreases |a|
  {
    if a != [] {
      assert a[0] in multiset(b);
      var i :| 0 <= i < |b| && b[i] == a[0];
      WeightWithout(w, a, 0);
      WeightWithout(w, b, i);
      BagWithout(a, 0, b, i);
      WeightAgrees(w, Without(a, 0), Without(b, i));
    } else {
      assert |multiset(b)| == 0;
    }
  }

  // ----- aggregates

  /** SUM does not depend on the order of the rows as long as it cannot overflow. */
  predicate OrderFree(schema: Schema, rows: seq<Row>, agg: AggExpr) {
    agg.Sum? && ColumnIndex(schema, agg.column).Some? ==>
      TotalAbs(Ints(Cells(rows, ColumnIndex(schema, agg.column).value))) <= I64_MAX
  }

  lemma SumsOfBag(a: seq<Row>, b: seq<Row>, i: nat)
    requires multiset(a) == multiset(b)
    ensures Total(Ints(Cells(a, i))) == Total(Ints(Cells(b, i)))
    ensures TotalAbs(Ints(Cells(a, i))) <= I64_MAX ==>
      SaturatingSum(Ints(Cells(a, i))) == SaturatingSum(Ints(Cells(b, i)))
  {
    WeightIsTotal(i, a);
    WeightIsTotal(i, b);
    WeightAgrees(IntAt(i), a, b);
    WeightAgrees(AbsAt(i), a, b);
    if TotalAbs(Ints(Cells(a, i))) <= I64_MAX {
      SmallColumns(Ints(Cells(a, i)));
      SmallColumns(Ints(Cells(b, i)));
    }
  }

  lemma {:induction false} IntsCount(cells: seq<Value>, x: i64)
    ensures multiset(Ints(cells))[x] == multiset(cells)[Int64(x)]
  {
    if cells != [] {
      var front, last := cells[..|cells| - 1], cells[|cells| - 1];
      assert cells == front + [last];
      IntsCount(front, x);
    }
  }

  lemma IntsAgree(a: seq<Value>, b: seq<Value>)
    requires multiset(a) == multiset(b)
    ensures multiset(Ints(a)) == multiset(Ints(b))
  {
    forall x: i64 ensures multiset(Ints(a))[x] == multiset(Ints(b))[x] {
      IntsCount(a, x);
      IntsCount(b, x);
    }
  }

  lemma ExtremesAgree(a: seq<i64>, b: seq<i64>)
    requires multiset(a) == multiset(b)
    ensures MinOf(a) == MinOf(b) && MaxOf(a) == MaxOf(b)
  {
    assert forall x :: x in a <==> x in multiset(a);
    assert forall x :: x in b <==> x in multiset(b);
  }

  lemma NonNullAgree(a: seq<Value>, b: seq<Value>)
    requires multiset(a) == multiset(b)
    ensures NonNull(a) == NonNull(b)
  {
    var p := (v: Value) => !v.Null?;
    BagSelectAgrees(p, a, b);
    BagSize(Select(p, a), Select(p, b));
  }

  /** Aggregates see rows as a bag, except for a SUM that may overflow on the way. */
  lemma AggregateAgrees(schema: Schema, a: seq<Row>, b: seq<Row>, agg: AggExpr)
    requires multiset(a) == multiset(b) && OrderFree(schema, a, agg)
    ensures RowAggregate(a, schema, agg) == RowAggregate(b, schema, agg)
  {
    BagSize(a, b);
    if !agg.CountStar? && ColumnIndex(schema, agg.column).Some? {
      var i := ColumnIndex(schema, agg.column).value;
      BagMapAgrees((row: Row) => CellOrNull(row, i), a, b);
      var (x, y) := (Cells(a, i), Cells(b, i));
      IntsAgree(x, y);
      BagSize(Ints(x), Ints(y));
      SumsOfBag(a, b, i);
      ExtremesAgree(Ints(x), Ints(y));
      NonNullAgree(x, y);
    }
  }

  lemma {:induction false} AggregatesAgree(schema: Schema, a: seq<Row>, b: seq<Row>, aggs: seq<AggExpr>)
    requires multiset(a) == multiset(b) && forall agg :: agg in aggs ==> OrderFree(schema, a, agg)
    ensures RowAggregates(a, schema, aggs) == RowAggregates(b, schema, aggs)
  {
    if aggs != [] {
      AggregateAgrees(schema, a, b, aggs[0]);
      AggregatesAgree(schema, a, b, aggs[1..]);
    }
  }

  // ----- groups

  lemma GroupIsOrderFree(schema: Schema, render: Renderer, indices: seq<nat>, k: Lex.Key, rows: seq<Row>, agg: AggExpr)
    requires OrderFree(schema, rows, agg)
    ensures OrderFree(schema, WithKey(render, indices, k, rows), agg)
  {
    if agg.Sum? && ColumnIndex(schema, agg.column).Some? {
      var i := ColumnIndex(schema, agg.column).value;
      PartWeighsLess(AbsAt(i), (row: Row) => KeyOf(render, indices, row) == k, rows);
      WeightIsTotal(i, rows);
      WeightIsTotal(i, WithKey(render, indices, k, rows));
    }
  }

  /** Groups with the same key cells and the same members, in any order. */
  ghost predicate SameGroups(g: Groups, h: Groups) {
    g.Keys == h.Keys && forall k :: k in g ==> g[k].0 == h[k].0 && multiset(g[k].1) == multiset(h[k].1)
  }

  lemma GroupsAgree(render: Renderer, indices: seq<nat>, a: seq<Row>, b: seq<Row>)
    requires Faithful(render) && multiset(a) == multiset(b)
    ensures SameGroups(GroupRows(render, indices, a), GroupRows(render, indices, b))
  {
    var g, h := GroupRows(render, indices, a), GroupRows(render, indices, b);
    GroupKeysAgree(render, indices, a, b);
    GroupKeysAgree(render, indices, b, a);
    GroupsByKey(render, indices, a);
    GroupsByKey(render, indices, b);
    forall k | k in g ensures g[k].0 == h[k].0 && multiset(g[k].1) == multiset(h[k].1) {
      JoinInjective(render, g[k].0, h[k].0);
      BagSelectAgrees((row: Row) => KeyOf(render, indices, row) == k, a, b);
    }
  }

  lemma GroupKeysAgree(render: Renderer, indices: seq<nat>, a: seq<Row>, b: seq<Row>)
    requires multiset(a) == multiset(b)
    ensures forall k :: k in GroupRows(render, indices, a) ==> k in GroupRows(render, indices, b)
  {
    var g := GroupRows(render, indices, a);
    GroupsByKey(render, indices, a);
    GroupsByKey(render, indices, b);
    forall k | k in g ensures k in GroupRows(render, indices, b) {
      var row := g[k].1[0];
      assert row in WithKey(render, indices, k, a);
      assert row in multiset(a);
      assert row in b;
    }
  }

  lemma {:induction false} GroupResultsAgree(schema: Schema, aggs: seq<AggExpr>, g: Groups, h: Groups,
                                             keys: seq<Lex.Key>)
    requires SameGroups(g, h) && forall k :: k in keys ==> k in g
    requires forall k, agg :: k in g && agg in aggs ==> OrderFree(schema, g[k].1, agg)
    ensures GroupResults(schema, aggs, g, keys) == GroupResults(schema, aggs, h, keys)
  {
    if keys != [] {
      assert keys[0] in keys;
      AggregatesAgree(schema, g[keys[0]].1, h[keys[0]].1, aggs);
      GroupResultsAgree(schema, aggs, g, h, keys[1..]);
    }
  }

  /** GROUP BY gives the same rows in the same order whatever order its input comes in. */
  lemma GroupByAgrees(render: Renderer, schema: Schema, keys: seq<string>, aggs: seq<AggExpr>, a: seq<Row>, b: seq<Row>)
    requires Faithful(render) && multiset(a) == multiset(b)
    requires forall agg :: agg in aggs ==> OrderFree(schema, a, agg)
    ensures GroupByRows(render, schema, keys, aggs, a) == GroupByRows(render, schema, keys, aggs, b)
  {
    if Indices(schema, keys).Success? {
      var indices := Indices(schema, keys).value;
      var g, h := GroupRows(render, indices, a), GroupRows(render, indices, b);
      GroupsAgree(render, indices, a, b);
      GroupsByKey(render, indices, a);
      forall k, agg | k in g && agg in aggs ensures OrderFree(schema, g[k].1, agg) {
        GroupIsOrderFree(schema, render, indices, k, a, agg);
      }
      GroupResultsAgree(schema, aggs, g, h, Lex.Sorted(g.Keys));
    }
  }
}
