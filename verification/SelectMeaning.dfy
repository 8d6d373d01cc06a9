/** What a whole SELECT returns, said of the cells of the stored rows. */
module SelectMeaning {
  import opened Aggregates
  import opened Catalogs
  import opened Engine
  import opened GroupMeaning
  import opened Grouping
  import opened GroupTotals
  import opened OrderMeaning
  import opened Planner
  import opened PlannerMeaning
  import opened Plans
  import opened Refinement
  import opened RowOrder
  import opened Schemas
  import opened Seqs
  import opened Sorting
  import opened TableStores
  import opened Values
  import opened Where

  /** The row has a cell in the column that is in this relation to the literal. */
  predicate CellIs(schema: Schema, c: string, op: BinaryOp, v: Value, row: Row) {
    c in schema.nameToIndex && schema.nameToIndex[c] < |row| && Reads(row[schema.nameToIndex[c]], op, v)
  }

  function RowsWhere(schema: Schema, c: string, op: BinaryOp, v: Value, rows: seq<Row>): seq<Row> {
    Select((row: Row) => CellIs(schema, c, op, v, row), rows)
  }

  predicate HasShape(q: Query, exprs: seq<Expr>, items: seq<SelectItem>) {
    && q.body.SelectFrom? && q.body.groupBy == Expressions(exprs) && q.body.projection == items
    && q.limit == None && q.offset == None
  }

  /** WHERE c op v. */
  function Comparison(c: string, op: BinaryOp, v: Value): Option<Expr> {
    Some(Binary(Identifier(c), op, Constant(v)))
  }

  lemma WhereKeeps(schema: Schema, rows: seq<Row>, c: string, op: BinaryOp, v: Value)
    requires IsComparison(op)
    ensures KeptRows(Comparison(c, op, v), schema, rows) == RowsWhere(schema, c, op, v, rows)
    ensures KeptRows(None, schema, rows) == rows
  {
    var e := Binary(Identifier(c), op, Constant(v));
    SelectAgrees((row: Row) => Comparison(c, op, v).Some? ==> Truth(Comparison(c, op, v).value, row, schema),
                 (row: Row) => CellIs(schema, c, op, v, row), rows);
    var none: Option<Expr> := None;
    SelectAll((row: Row) => none.Some? ==> Truth(none.value, row, schema), rows);
  }

  /** SELECT * FROM ... WHERE c op v ORDER BY ...: the stored rows whose cell is in the relation, in the order
      of the terms. */
  lemma StarMeans(render: Renderer, schema: Schema, stored: seq<Row>, q: Query, c: string, op: BinaryOp, v: Value,
                  cols: seq<(nat, bool)>)
    requires HasShape(q, [], [OtherItem]) && q.body.selection == Comparison(c, op, v) && IsComparison(op)
    requires Resolves(schema, OrderOf(q.orderBy), cols) && Comparable(RowsWhere(schema, c, op, v, stored), cols)
    ensures
      var answer := Answer(render, schema, stored, q);
      answer.Success? && IsOrderedBy(cols, answer.value, RowsWhere(schema, c, op, v, stored))
  {
    WhereKeeps(schema, stored, c, op, v);
    OrderIndicesMean(schema, OrderOf(q.orderBy));
    assert forall k :: 0 <= k < |cols| ==> ColumnIndex(schema, OrderOf(q.orderBy)[k].0).Some?;
    OrderMeaning.ResolvedOnce(schema, OrderOf(q.orderBy), cols, OrderIndices(schema, OrderOf(q.orderBy)).value);
    SortMeans(cols, RowsWhere(schema, c, op, v, stored));
    NotAggregates();
  }

  lemma NotAggregates()
    ensures !OnlyAggregates([OtherItem]) && ItemNames([OtherItem]) == [] && NamesOf([]) == []
  {
    assert [OtherItem][0] in [OtherItem] && [OtherItem][..0] == [];
  }

  /** SELECT f(c), ... FROM ... WHERE c op v: one row of these aggregates over the rows whose cell is in the
      relation; it fails exactly if a column is unknown. */
  lemma AggregatesMean(render: Renderer, schema: Schema, stored: seq<Row>, q: Query, c: string, op: BinaryOp,
                       v: Value, fs: seq<FunctionCall>, aggs: seq<AggExpr>)
    requires HasShape(q, [], Calls(fs)) && q.body.selection == Comparison(c, op, v) && IsComparison(op)
    requires fs != [] && |fs| == |aggs| && forall k :: 0 <= k < |fs| ==> ToAgg(fs[k]) == Success(aggs[k])
    ensures
      var answer, kept := Answer(render, schema, stored, q), RowsWhere(schema, c, op, v, stored);
      && (answer.Success? <==> forall agg :: agg in aggs ==> AggKnown(schema, agg))
      && (answer.Success? ==>
            && |answer.value| == 1 && |answer.value[0]| == |aggs|
            && forall j :: 0 <= j < |aggs| ==> RowAggregate(kept, schema, aggs[j]) == Success(answer.value[0][j]))
  {
    var kept := RowsWhere(schema, c, op, v, stored);
    WhereKeeps(schema, stored, c, op, v);
    CallAggregates(fs, aggs);
    AggregatesKnown(kept, schema, aggs);
    if RowAggregates(kept, schema, aggs).Success? {
      forall j | 0 <= j < |aggs|
        ensures |RowAggregates(kept, schema, aggs).value| == |aggs|
        ensures RowAggregate(kept, schema, aggs[j]) == Success(RowAggregates(kept, schema, aggs).value[j])
      {
        AggregatesAt(kept, schema, aggs, j);
      }
    }
  }

  function Identifiers(keys: seq<string>): seq<Expr> {
    Map((key: string) => Identifier(key), keys)
  }

  lemma {:induction false} IdentifierNames(keys: seq<string>)
    ensures NamesOf(Identifiers(keys)) == keys
  {
    if keys != [] {
      var n := |keys| - 1;
      IdentifierNames(keys[..n]);
      assert Identifiers(keys)[..n] == Identifiers(keys[..n]);
    }
  }

  /** SELECT k, ..., f(c), ... FROM ... WHERE c op v GROUP BY k, ...: one row for each combination of key cells
      among the rows whose cell is in the relation. */
  lemma GroupsOfSelectMean(render: Renderer, schema: Schema, stored: seq<Row>, q: Query, c: string, op: BinaryOp,
                           v: Value, keys: seq<string>, cols: seq<nat>, fs: seq<FunctionCall>, aggs: seq<AggExpr>)
    requires Faithful(render) && keys != [] && KeysResolve(schema, keys, cols)
    requires HasShape(q, Identifiers(keys), Plain(keys) + Calls(fs))
    requires q.body.selection == Comparison(c, op, v) && IsComparison(op)
    requires |fs| == |aggs| && forall k :: 0 <= k < |fs| ==> ToAgg(fs[k]) == Success(aggs[k])
    requires forall agg :: agg in aggs ==> AggKnown(schema, agg)
    ensures
      var answer := Answer(render, schema, stored, q);
      answer.Success? && IsGrouping(render, schema, cols, aggs, RowsWhere(schema, c, op, v, stored), answer.value)
  {
    var kept := RowsWhere(schema, c, op, v, stored);
    WhereKeeps(schema, stored, c, op, v);
    IdentifierNames(keys);
    CallAggregates(fs, aggs);
    PlainThenCalls(keys, Calls(fs));
    GroupingSucceeds(render, schema, keys, aggs, kept);
    IndicesMean(schema, keys);
    GroupMeaning.ResolvedOnce(schema, keys, cols, Indices(schema, keys).value);
    GroupsMean(render, schema, cols, aggs, kept, GroupByRows(render, schema, keys, aggs, kept).value);
  }

  /** From statement to answer: after any clean run, the rows that SELECT * FROM t WHERE c op v ORDER BY ...
      returns are the stored rows of the table whose cell is in the relation, in the order of the terms. */
  lemma StarAnswers(cfg: Config, catalog: CatalogState, plans: seq<PlanNode>, q: Query, t: string, meta: TableMeta,
                    c: string, op: BinaryOp, v: Value, cols: seq<(nat, bool)>)
    requires ValidConfig(cfg) && Consistent(catalog) && CleanRun(cfg, NewSession(catalog), plans)
    requires HasShape(q, [], [OtherItem]) && q.body.selection == Comparison(c, op, v) && IsComparison(op)
    requires q.body.from == [Table([t])] && QueryPlan(q).Success?
    requires
      var db := Run(cfg, NewSession(catalog), plans);
      && LookupTable(db.catalog, "public", t) == Some(meta) && FastPathsSafe(db, QueryPlan(q).value)
      && Resolves(meta.schema, OrderOf(q.orderBy), cols)
      && Comparable(RowsWhere(meta.schema, c, op, v, TableRows(db.rows, meta.id)), cols)
    ensures
      var db := Run(cfg, NewSession(catalog), plans);
      var answer := RowsOf(Exec(cfg, db, QueryPlan(q).value).1);
      && answer.Success?
      && IsOrderedBy(cols, answer.value, RowsWhere(meta.schema, c, op, v, TableRows(db.rows, meta.id)))
  {
    var db := Run(cfg, NewSession(catalog), plans);
    NotAggregates();
    SelectAnswersQuery(cfg, catalog, plans, q);
    StarMeans(cfg.render, meta.schema, TableRows(db.rows, meta.id), q, c, op, v, cols);
  }
}
