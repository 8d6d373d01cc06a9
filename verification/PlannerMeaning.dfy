/** What the clauses of a SELECT are read as: names, calls, directions and windows. */
module PlannerMeaning {
  import opened Catalogs
  import opened Engine
  import opened Grouping
  import opened OperatorMeaning
  import opened Planner
  import opened Plans
  import opened Refinement
  import opened Schemas
  import opened Seqs
  import opened Values
  import opened Where

  // ----- FROM

  lemma {:induction false} DotsJoin(a: seq<string>, b: seq<string>)
    requires a != [] && b != []
    ensures JoinDots(a + b) == JoinDots(a) + "." + JoinDots(b)
  {
    if |a| == 1 {
      assert (a + b)[1..] == b;
    } else {
      assert (a + b)[1..] == a[1..] + b;
      DotsJoin(a[1..], b);
      ConcatAssociates(a[0] + ".", JoinDots(a[1..]), "." + JoinDots(b));
    }
  }

  function Looked(c: CatalogState, namespace: string, table: string): Result<TableMeta> {
    match LookupTable(c, namespace, table)
    case Some(meta) => Success(meta)
    case None => Failure(TableNotFound(namespace, table))
  }

  /** A plain name is looked up in the namespace "public"; of a longer one the first part is the namespace and
      the others, joined by dots, are the table. */
  lemma SelectReadsTable(db: Db, q: Query, parts: seq<string>)
    requires QueryPlan(q).Success? && q.body.from[0] == Table(parts)
    ensures |parts| == 1 ==> ScanMeta(db, QueryPlan(q).value) == Looked(db.catalog, "public", parts[0])
    ensures |parts| == 2 ==> ScanMeta(db, QueryPlan(q).value) == Looked(db.catalog, parts[0], parts[1])
    ensures forall first, a, b :: parts == [first] + a + b && a != [] && b != [] ==>
      ScanMeta(db, QueryPlan(q).value) == Looked(db.catalog, first, JoinDots(a) + "." + JoinDots(b))
  {
    PlanReadsTable(db, q);
    forall first, a, b | parts == [first] + a + b && a != [] && b != []
      ensures ScanMeta(db, QueryPlan(q).value) == Looked(db.catalog, first, JoinDots(a) + "." + JoinDots(b))
    {
      assert parts[1..] == a + b;
      DotsJoin(a, b);
    }
  }

  // ----- the select list

  predicate CallsOn(f: FunctionCall, name: string, c: string) {
    f.name == name && f.args != [] && f.args[0] == ColumnArg(c)
  }

  /** Each aggregate is planned for its own name, over the column that is its first argument; COUNT alone takes
      a star, and nothing else is an aggregate. */
  lemma CallsMean(f: FunctionCall)
    ensures forall c :: ToAgg(f) == Success(Sum(c)) <==> CallsOn(f, "SUM", c)
    ensures forall c :: ToAgg(f) == Success(Count(c)) <==> CallsOn(f, "COUNT", c)
    ensures forall c :: ToAgg(f) == Success(Avg(c)) <==> CallsOn(f, "AVG", c)
    ensures forall c :: ToAgg(f) == Success(Min(c)) <==> CallsOn(f, "MIN", c)
    ensures forall c :: ToAgg(f) == Success(Max(c)) <==> CallsOn(f, "MAX", c)
    ensures ToAgg(f) == Success(CountStar) <==> f.name == "COUNT" && f.args != [] && f.args[0] == WildcardArg
    ensures ToAgg(f).Failure? ==> ToAgg(f) == Failure(Unsupported)
  {
  }

  function NameIn(e: Expr): string {
    if e.Identifier? then e.name else ""
  }

  /** Of a list of expressions the columns are named, in their order. */
  lemma {:induction false} NamesMean(exprs: seq<Expr>)
    ensures NamesOf(exprs) == Map(NameIn, Select((e: Expr) => e.Identifier?, exprs))
  {
    if exprs != [] {
      NamesMean(exprs[..|exprs| - 1]);
      MapConcat(NameIn, Select((e: Expr) => e.Identifier?, exprs[..|exprs| - 1]), [exprs[|exprs| - 1]]);
    }
  }

  function Plain(names: seq<string>): seq<SelectItem> {
    Map((name: string) => UnnamedExpr(Identifier(name)), names)
  }

  lemma {:induction false} PlainNames(names: seq<string>)
    ensures ItemNames(Plain(names)) == names
  {
    if names != [] {
      var n := |names| - 1;
      PlainNames(names[..n]);
      assert Plain(names)[..n] == Plain(names[..n]);
    }
  }

  function Calls(fs: seq<FunctionCall>): seq<SelectItem> {
    Map((f: FunctionCall) => UnnamedExpr(Call(f)), fs)
  }

  lemma {:induction false} CallAggregates(fs: seq<FunctionCall>, aggs: seq<AggExpr>)
    requires |fs| == |aggs| && forall k :: 0 <= k < |fs| ==> ToAgg(fs[k]) == Success(aggs[k])
    ensures AggsOf(Calls(fs)) == aggs && forall item :: item in Calls(fs) ==> IsAggregate(item)
  {
    if fs != [] {
      var n := |fs| - 1;
      CallAggregates(fs[..n], aggs[..n]);
      assert Calls(fs)[..n] == Calls(fs[..n]) && aggs == aggs[..n] + [aggs[n]];
    }
  }

  /** Without GROUP BY, a star keeps the rows as they are, a list of columns plans their projection in its
      order, and a list of aggregates plans these. */
  lemma ListsMean(root: PlanNode, names: seq<string>, fs: seq<FunctionCall>, aggs: seq<AggExpr>)
    requires names != [] && fs != []
    requires |fs| == |aggs| && forall k :: 0 <= k < |fs| ==> ToAgg(fs[k]) == Success(aggs[k])
    ensures ListPlan(root, [], [OtherItem]) == Success(root)
    ensures ListPlan(root, [], Plain(names)) == Success(Project(root, names))
    ensures ListPlan(root, [], Calls(fs)) == Success(Aggregate(root, aggs))
  {
    assert [OtherItem][..0] == [];
    assert [OtherItem][0] in [OtherItem];
    PlainNames(names);
    assert Plain(names)[0] in Plain(names);
    CallAggregates(fs, aggs);
  }

  /** With GROUP BY, a list of grouping columns and then aggregates plans the grouping; a column that is not
      grouped by is refused. */
  lemma GroupedListsMean(root: PlanNode, keys: seq<string>, fs: seq<FunctionCall>, aggs: seq<AggExpr>, c: string)
    requires keys != []
    requires |fs| == |aggs| && forall k :: 0 <= k < |fs| ==> ToAgg(fs[k]) == Success(aggs[k])
    ensures ListPlan(root, keys, Plain(keys) + Calls(fs)) == Success(GroupBy(root, keys, aggs))
    ensures c !in keys ==> ListPlan(root, keys, Plain([c])) == Failure(Unsupported)
  {
    CallAggregates(fs, aggs);
    PlainThenCalls(keys, Calls(fs));
    assert forall k :: 0 <= k < |keys| ==> keys[k] in keys;
    assert AllGrouped(keys, Plain(keys));
    if c !in keys {
      assert Plain([c])[0] in Plain([c]);
    }
  }

  lemma {:induction false} PlainThenCalls(keys: seq<string>, items: seq<SelectItem>)
    ensures AggsOf(Plain(keys) + items) == AggsOf(items)
  {
    if items != [] {
      var n := |items| - 1;
      PlainThenCalls(keys, items[..n]);
      assert (Plain(keys) + items)[..|Plain(keys) + items| - 1] == Plain(keys) + items[..n];
    } else if keys != [] {
      var n := |keys| - 1;
      PlainThenCalls(keys[..n], []);
      assert Plain(keys) + [] == Plain(keys) && Plain(keys)[..n] == Plain(keys[..n]) + [];
    }
  }

  // ----- ORDER BY

  predicate Orders(t: OrderTerm) {
    t.e.Identifier? && t.e.name != ""
  }

  function Directed(t: OrderTerm): (string, bool) {
    (NameIn(t.e), t.asc != Some(false))
  }

  /** Each term that is a column orders by it, ascending unless DESC is written. */
  lemma {:induction false} OrderMeans(terms: seq<OrderTerm>)
    ensures OrderOf(terms) == Map(Directed, Select(Orders, terms))
  {
    if terms != [] {
      OrderMeans(terms[..|terms| - 1]);
      MapConcat(Directed, Select(Orders, terms[..|terms| - 1]), [terms[|terms| - 1]]);
    }
  }

  // ----- LIMIT and OFFSET

  lemma AnswerThenWindow(render: Renderer, schema: Schema, stored: seq<Row>, q: Query)
    requires q.body.SelectFrom? && q.body.groupBy.Expressions?
    ensures
      var whole := Answer(render, schema, stored, q.(limit := None, offset := None));
      Answer(render, schema, stored, q) ==
        match whole
        case Success(rows) => Success(Window(OrElse(q.limit, U64_MAX), OrElse(q.offset, 0), rows))
        case Failure(e) => Failure(e)
  {
  }

  /** LIMIT and OFFSET cut the answer of the same SELECT without them: from the offset on, if there is one, as
      many rows as the limit says, if there is one, or as there are. */
  lemma WindowOfSelect(render: Renderer, schema: Schema, stored: seq<Row>, q: Query)
    requires q.body.SelectFrom? && q.body.groupBy.Expressions?
    ensures
      var whole := Answer(render, schema, stored, q.(limit := None, offset := None));
      var cut := Answer(render, schema, stored, q);
      && (whole.Failure? ==> cut == whole)
      && (whole.Success? && |whole.value| <= U64_MAX ==>
            var skip := if q.offset.Some? then q.offset.value else 0;
            var left := if skip < |whole.value| then |whole.value| - skip else 0;
            && cut.Success?
            && |cut.value| == (if q.limit.Some? && q.limit.value < left then q.limit.value else left)
            && forall k :: 0 <= k < |cut.value| ==> cut.value[k] == whole.value[skip + k])
  {
    var whole := Answer(render, schema, stored, q.(limit := None, offset := None));
    AnswerThenWindow(render, schema, stored, q);
    if whole.Success? {
      WindowMeans(OrElse(q.limit, U64_MAX), OrElse(q.offset, 0), whole.value);
    }
  }
}
