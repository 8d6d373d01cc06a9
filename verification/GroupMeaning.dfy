/** What GROUP BY returns, read off its rows and those it is given. */
module GroupMeaning {
  import opened Aggregates
  import opened Catalogs
  import opened Engine
  import opened Grouping
  import opened GroupTotals
  import opened Plans
  import opened Refinement
  import opened Schemas
  import opened Seqs
  import opened Values
  import Lex

  /** The cells of a row at these positions, those left out for which it is too short. */
  function CellsAt(row: Row, cols: seq<nat>): seq<Value> {
    Map((c: nat) => CellOrNull(row, c), Select((c: nat) => c < |row|, cols))
  }

  lemma {:induction false} KeyCellsMean(row: Row, cols: seq<nat>)
    ensures KeyCells(row, cols) == CellsAt(row, cols)
  {
    if cols != [] {
      var front, c := cols[..|cols| - 1], cols[|cols| - 1];
      KeyCellsMean(row, front);
      MapConcat((c: nat) => CellOrNull(row, c), Select((c: nat) => c < |row|, front), [c]);
    }
  }

  function RowsWith(cols: seq<nat>, cells: seq<Value>, rows: seq<Row>): seq<Row> {
    Select((row: Row) => CellsAt(row, cols) == cells, rows)
  }

  lemma RowsWithMeans(cols: seq<nat>, cells: seq<Value>, rows: seq<Row>)
    ensures WithCells(cols, cells, rows) == RowsWith(cols, cells, rows)
  {
    forall row: Row | row in rows ensures (KeyCells(row, cols) == cells) == (CellsAt(row, cols) == cells) {
      KeyCellsMean(row, cols);
    }
    SelectAgrees((row: Row) => KeyCells(row, cols) == cells, (row: Row) => CellsAt(row, cols) == cells, rows);
  }

  /** What stands before the aggregates of a grouped row. */
  function Head(row: Row, width: nat): seq<Value>
    requires width <= |row|
  {
    row[..|row| - width]
  }

  /** The row has some input row's cells, and each aggregate over the input rows that have them. */
  ghost predicate IsGroupedRow(schema: Schema, cols: seq<nat>, aggs: seq<AggExpr>, rows: seq<Row>, r: Row) {
    && |aggs| <= |r|
    && (exists row :: row in rows && CellsAt(row, cols) == Head(r, |aggs|))
    && (forall j :: 0 <= j < |aggs| ==>
          RowAggregate(RowsWith(cols, Head(r, |aggs|), rows), schema, aggs[j])
            == Success(AggregateCell(r, |aggs|, j)))
  }

  /** One such row for every combination of cells among the input rows, in the order of their renderings. */
  ghost predicate IsGrouping(render: Renderer, schema: Schema, cols: seq<nat>, aggs: seq<AggExpr>, rows: seq<Row>,
                             out: seq<Row>) {
    && (forall r :: r in out ==> IsGroupedRow(schema, cols, aggs, rows, r))
    && (forall row :: row in rows ==> exists n :: 0 <= n < |out| && Heads(out[n], |aggs|, CellsAt(row, cols)))
    && (forall m, n :: 0 <= m < n < |out| ==> ComesFirst(render, |aggs|, out[m], out[n]))
  }

  predicate Heads(r: Row, width: nat, cells: seq<Value>) {
    width <= |r| && Head(r, width) == cells
  }

  /** The cells before the aggregates differ, and the lesser rendering comes first. */
  predicate ComesFirst(render: Renderer, width: nat, a: Row, b: Row) {
    && width <= |a| && width <= |b| && Head(a, width) != Head(b, width)
    && Lex.Lt(Join(render, Head(a, width)), Join(render, Head(b, width)))
  }

  predicate AggKnown(schema: Schema, agg: AggExpr) {
    agg.CountStar? || ColumnIndex(schema, agg.column).Some?
  }

  lemma {:induction false} AggregatesKnown(rows: seq<Row>, schema: Schema, aggs: seq<AggExpr>)
    ensures RowAggregates(rows, schema, aggs).Success? <==> forall agg :: agg in aggs ==> AggKnown(schema, agg)
  {
    if aggs != [] {
      AggregatesKnown(rows, schema, aggs[1..]);
      assert aggs == [aggs[0]] + aggs[1..];
      assert forall agg :: agg in aggs <==> agg == aggs[0] || agg in aggs[1..];
      assert RowAggregate(rows, schema, aggs[0]).Success? <==> AggKnown(schema, aggs[0]);
    }
  }

  lemma {:induction false} ResultsKnown(schema: Schema, aggs: seq<AggExpr>, groups: Groups, keys: seq<Lex.Key>)
    requires forall k :: k in keys ==> k in groups
    ensures GroupResults(schema, aggs, groups, keys).Success?
       <==> keys == [] || forall agg :: agg in aggs ==> AggKnown(schema, agg)
  {
    if keys != [] {
      AggregatesKnown(groups[keys[0]].1, schema, aggs);
      ResultsKnown(schema, aggs, groups, keys[1..]);
    }
  }

  predicate KeysResolve(schema: Schema, keys: seq<string>, cols: seq<nat>) {
    |cols| == |keys| && forall k :: 0 <= k < |keys| ==> ColumnIndex(schema, keys[k]) == Some(cols[k])
  }

  lemma {:induction false} IndicesMean(schema: Schema, keys: seq<string>)
    ensures Indices(schema, keys).Success? ==> KeysResolve(schema, keys, Indices(schema, keys).value)
    ensures Indices(schema, keys).Success? <==> forall k :: 0 <= k < |keys| ==> ColumnIndex(schema, keys[k]).Some?
  {
    if keys != [] {
      IndicesMean(schema, keys[1..]);
      assert forall k :: 1 <= k < |keys| ==> keys[k] == keys[1..][k - 1];
    }
  }

  lemma ResolvedOnce(schema: Schema, keys: seq<string>, a: seq<nat>, b: seq<nat>)
    requires KeysResolve(schema, keys, a) && KeysResolve(schema, keys, b)
    ensures a == b
  {
    assert forall k :: 0 <= k < |a| ==> Some(a[k]) == Some(b[k]);
  }

  // ----- the rows

  /** The row made of a group. */
  lemma GroupRowMeans(render: Renderer, schema: Schema, cols: seq<nat>, aggs: seq<AggExpr>, rows: seq<Row>,
                      key: Lex.Key, r: Row)
    requires Faithful(render) && key in GroupRows(render, cols, rows)
    requires
      var (cells, members) := GroupRows(render, cols, rows)[key];
      RowAggregates(members, schema, aggs).Success? && r == cells + RowAggregates(members, schema, aggs).value
    ensures IsGroupedRow(schema, cols, aggs, rows, r) && Join(render, Head(r, |aggs|)) == key
  {
    var (cells, members) := GroupRows(render, cols, rows)[key];
    GroupsPartitionRows(render, cols, rows);
    GroupsByKey(render, cols, rows);
    RowsWithMeans(cols, cells, rows);
    assert members == WithCells(cols, cells, rows) && members != [];
    AggregatesWidth(members, schema, aggs);
    assert Head(r, |aggs|) == cells;
    var row := members[0];
    assert row in members && row in rows && KeyCells(row, cols) == cells;
    KeyCellsMean(row, cols);
    forall j | 0 <= j < |aggs| ensures RowAggregate(members, schema, aggs[j]) == Success(AggregateCell(r, |aggs|, j)) {
      AggregatesAt(members, schema, aggs, j);
    }
  }

  lemma {:induction false} AggregatesWidth(rows: seq<Row>, schema: Schema, aggs: seq<AggExpr>)
    requires RowAggregates(rows, schema, aggs).Success?
    ensures |RowAggregates(rows, schema, aggs).value| == |aggs|
  {
    if aggs != [] {
      AggregatesWidth(rows, schema, aggs[1..]);
    }
  }

  lemma GroupsMean(render: Renderer, schema: Schema, cols: seq<nat>, aggs: seq<AggExpr>, rows: seq<Row>,
                   out: seq<Row>)
    requires Faithful(render)
    requires
      var g := GroupRows(render, cols, rows);
      GroupResults(schema, aggs, g, Lex.Sorted(g.Keys)) == Success(out)
    ensures IsGrouping(render, schema, cols, aggs, rows, out)
  {
    var g := GroupRows(render, cols, rows);
    var keys := Lex.Sorted(g.Keys);
    ResultsLength(schema, aggs, g, keys);
    forall n | 0 <= n < |out|
      ensures IsGroupedRow(schema, cols, aggs, rows, out[n]) && Join(render, Head(out[n], |aggs|)) == keys[n]
    {
      assert keys[n] in keys;
      GroupResultAt(schema, aggs, g, keys, n);
      GroupRowMeans(render, schema, cols, aggs, rows, keys[n], out[n]);
    }
    forall m, n | 0 <= m < n < |out| ensures ComesFirst(render, |aggs|, out[m], out[n]) {
      Lex.LtIsStrict(keys[m], keys[n]);
    }
    forall row | row in rows ensures exists n :: 0 <= n < |out| && Heads(out[n], |aggs|, CellsAt(row, cols)) {
      GroupsByKey(render, cols, rows);
      KeyCellsMean(row, cols);
      var n :| 0 <= n < |keys| && keys[n] == KeyOf(render, cols, row);
      JoinInjective(render, CellsAt(row, cols), Head(out[n], |aggs|));
      assert Heads(out[n], |aggs|, CellsAt(row, cols));
    }
  }

  lemma {:induction false} ResultsLength(schema: Schema, aggs: seq<AggExpr>, groups: Groups, keys: seq<Lex.Key>)
    requires (forall k :: k in keys ==> k in groups) && GroupResults(schema, aggs, groups, keys).Success?
    ensures |GroupResults(schema, aggs, groups, keys).value| == |keys|
  {
    if keys != [] {
      ResultsLength(schema, aggs, groups, keys[1..]);
    }
  }

  lemma NoGroups(render: Renderer, cols: seq<nat>, rows: seq<Row>)
    ensures Lex.Sorted(GroupRows(render, cols, rows).Keys) == [] <==> rows == []
  {
    var g := GroupRows(render, cols, rows);
    GroupsByKey(render, cols, rows);
    if rows != [] {
      assert rows[0] in rows;
      assert KeyOf(render, cols, rows[0]) in Lex.Sorted(g.Keys);
    } else {
      assert g.Keys == {};
    }
  }

  lemma GroupByReadsInput(cfg: Config, db: Db, input: PlanNode, keys: seq<string>, aggs: seq<AggExpr>,
                          meta: TableMeta, rows: seq<Row>)
    requires RowsOf(Exec(cfg, db, input).1) == Success(rows) && ScanMeta(db, input) == Success(meta)
    ensures RowsOf(Exec(cfg, db, GroupBy(input, keys, aggs)).1)
         == GroupByRows(cfg.render, meta.schema, keys, aggs, rows)
  {
    RowsComeFromQueries(cfg, db, input);
    QueryKeepsMeta(cfg, db, input);
  }

  lemma GroupingSucceeds(render: Renderer, schema: Schema, keys: seq<string>, aggs: seq<AggExpr>, rows: seq<Row>)
    ensures GroupByRows(render, schema, keys, aggs, rows).Success?
       <==> (forall k :: 0 <= k < |keys| ==> ColumnIndex(schema, keys[k]).Some?)
            && (rows == [] || forall agg :: agg in aggs ==> AggKnown(schema, agg))
  {
    IndicesMean(schema, keys);
    if Indices(schema, keys).Success? {
      var groups := GroupRows(render, Indices(schema, keys).value, rows);
      NoGroups(render, Indices(schema, keys).value, rows);
      ResultsKnown(schema, aggs, groups, Lex.Sorted(groups.Keys));
    }
  }

  /** Executing GROUP BY: one row for each combination of key cells, these first and then each aggregate over
      the rows that have them. It fails exactly on an unknown key, or with rows on an unknown column. */
  lemma GroupByMeans(cfg: Config, db: Db, input: PlanNode, keys: seq<string>, aggs: seq<AggExpr>, meta: TableMeta,
                     rows: seq<Row>)
    requires Faithful(cfg.render)
    requires RowsOf(Exec(cfg, db, input).1) == Success(rows) && ScanMeta(db, input) == Success(meta)
    ensures
      var answer := RowsOf(Exec(cfg, db, GroupBy(input, keys, aggs)).1);
      && (answer.Success? <==>
            (forall k :: 0 <= k < |keys| ==> ColumnIndex(meta.schema, keys[k]).Some?)
            && (rows == [] || forall agg :: agg in aggs ==> AggKnown(meta.schema, agg)))
      && forall cols :: KeysResolve(meta.schema, keys, cols) && answer.Success? ==>
           IsGrouping(cfg.render, meta.schema, cols, aggs, rows, answer.value)
  {
    GroupByReadsInput(cfg, db, input, keys, aggs, meta, rows);
    GroupingSucceeds(cfg.render, meta.schema, keys, aggs, rows);
    IndicesMean(meta.schema, keys);
    var answer := GroupByRows(cfg.render, meta.schema, keys, aggs, rows);
    forall cols | KeysResolve(meta.schema, keys, cols) && answer.Success?
      ensures IsGrouping(cfg.render, meta.schema, cols, aggs, rows, answer.value)
    {
      ResolvedOnce(meta.schema, keys, cols, Indices(meta.schema, keys).value);
      GroupsMean(cfg.render, meta.schema, cols, aggs, rows, answer.value);
    }
  }
}
