/** Document collections: recursive filters over rows, find, and delete-many. */
module Documents {
  import Plans
  import opened Schemas
  import opened Seqs
  import opened TableStores
  import opened Values

  datatype FilterOp = Eq | Ne | Gt | Gte | Lt | Lte | In | Nin

  /** What a field is compared with: one value, or the list of `$in` and `$nin`. */
  datatype Operand = One(v: Value) | Many(vs: seq<Value>)

  datatype DocFilter = DocFilter(conditions: seq<FilterCondition>)

  datatype FilterCondition =
    | Cmp(field: string, op: FilterOp, value: Operand)
    | And(subs: seq<DocFilter>)
    | Or(subs: seq<DocFilter>)
    | Not(sub: DocFilter)

  type Fields = string -> Option<Value>

  function CompareTo(v: Value, cond: Operand): Option<Ordering> {
    if cond.One? then Compare(v, cond.v) else None
  }

  predicate CmpMatch(op: FilterOp, v: Value, cond: Operand) {
    match op
    case Eq => cond == One(v)
    case Ne => cond != One(v)
    case Gt => CompareTo(v, cond) == Some(Greater)
    case Gte => CompareTo(v, cond).Some? && CompareTo(v, cond) != Some(Less)
    case Lt => CompareTo(v, cond) == Some(Less)
    case Lte => CompareTo(v, cond).Some? && CompareTo(v, cond) != Some(Greater)
    case In => cond.Many? && v in cond.vs
    case Nin => cond.Many? ==> v !in cond.vs
  }

  /** What a condition says of the value of its field: integers are compared as numbers and strings in byte
      order, nothing else is; equality is that of values; a list is for membership only. */
  predicate Reads(op: FilterOp, v: Value, cond: Operand) {
    match op
    case Eq => cond == One(v)
    case Ne => cond != One(v)
    case Gt => cond.One? && IsAbove(v, cond.v)
    case Lt => cond.One? && IsAbove(cond.v, v)
    case Gte => cond.One? && (IsAbove(v, cond.v) || (v == cond.v && (v.Int64? || v.Str?)))
    case Lte => cond.One? && (IsAbove(cond.v, v) || (v == cond.v && (v.Int64? || v.Str?)))
    case In => cond.Many? && exists k :: 0 <= k < |cond.vs| && cond.vs[k] == v
    case Nin => !(cond.Many? && exists k :: 0 <= k < |cond.vs| && cond.vs[k] == v)
  }

  lemma OperatorsRead(op: FilterOp, v: Value, cond: Operand)
    ensures CmpMatch(op, v, cond) <==> Reads(op, v, cond)
  {
    if cond.One? {
      CompareMeans(v, cond.v);
    }
  }

  /** The evaluation loop: conditions in order, stopping at the first that fails. */
  predicate MatchesFilter(f: DocFilter, get: Fields)
    decreases f, 1
  {
    MatchesConditions(f.conditions, get)
  }

  predicate MatchesConditions(cs: seq<FilterCondition>, get: Fields)
    decreases cs, 0
  {
    cs == [] || (MatchesCondition(cs[0], get) && MatchesConditions(cs[1..], get))
  }

  predicate MatchesCondition(c: FilterCondition, get: Fields)
    decreases c, 2
  {
    match c
    case Cmp(field, op, value) => get(field).Some? && CmpMatch(op, get(field).value, value)
    case And(subs) => MatchesEvery(subs, get)
    case Or(subs) => MatchesAny(subs, get)
    case Not(sub) => !MatchesFilter(sub, get)
  }

  predicate MatchesEvery(fs: seq<DocFilter>, get: Fields)
    decreases fs, 0
  {
    fs == [] || (MatchesFilter(fs[0], get) && MatchesEvery(fs[1..], get))
  }

  predicate MatchesAny(fs: seq<DocFilter>, get: Fields)
    decreases fs, 0
  {
    fs != [] && (MatchesFilter(fs[0], get) || MatchesAny(fs[1..], get))
  }

  /** What a filter says of a document: every condition holds. */
  predicate Satisfies(f: DocFilter, get: Fields)
    decreases f
  {
    forall c :: c in f.conditions ==> SatisfiesCondition(c, get)
  }

  predicate SatisfiesCondition(c: FilterCondition, get: Fields)
    decreases c
  {
    match c
    case Cmp(field, op, value) => get(field).Some? && Reads(op, get(field).value, value)
    case And(subs) => forall g :: g in subs ==> Satisfies(g, get)
    case Or(subs) => exists g :: g in subs && Satisfies(g, get)
    case Not(sub) => !Satisfies(sub, get)
  }

  lemma {:induction false} EveryMeans(fs: seq<DocFilter>, get: Fields)
    ensures MatchesEvery(fs, get) <==> forall g :: g in fs ==> Satisfies(g, get)
    ensures MatchesAny(fs, get) <==> exists g :: g in fs && Satisfies(g, get)
    decreases fs, 0
  {
    if fs != [] {
      assert fs == [fs[0]] + fs[1..];
      MatchesMeans(fs[0], get);
      EveryMeans(fs[1..], get);
    }
  }

  lemma {:induction false} ConditionMeans(c: FilterCondition, get: Fields)
    ensures MatchesCondition(c, get) <==> SatisfiesCondition(c, get)
    decreases c, 2
  {
    match c
    case Cmp(field, op, value) =>
      if get(field).Some? {
        OperatorsRead(op, get(field).value, value);
      }
    case And(subs) => EveryMeans(subs, get);
    case Or(subs) => EveryMeans(subs, get);
    case Not(sub) => MatchesMeans(sub, get);
  }

  lemma {:induction false} ConditionsMean(cs: seq<FilterCondition>, get: Fields)
    ensures MatchesConditions(cs, get) <==> forall c :: c in cs ==> SatisfiesCondition(c, get)
    decreases cs, 0
  {
    if cs != [] {
      assert cs == [cs[0]] + cs[1..];
      ConditionMeans(cs[0], get);
      ConditionsMean(cs[1..], get);
    }
  }

  /** The loop with early returns decides exactly what the filter says. */
  lemma {:induction false} MatchesMeans(f: DocFilter, get: Fields)
    ensures MatchesFilter(f, get) <==> Satisfies(f, get)
    decreases f, 1
  {
    ConditionsMean(f.conditions, get);
    assert Satisfies(f, get) <==> forall c :: c in f.conditions ==> SatisfiesCondition(c, get);
  }

  /** A filter of one connective: both sub-filters, either of them, and not the sub-filter; and a filter of two
      conditions asks for both. */
  lemma ConnectivesMean(f: DocFilter, g: DocFilter, get: Fields)
    ensures MatchesFilter(DocFilter([And([f, g])]), get) <==> MatchesFilter(f, get) && MatchesFilter(g, get)
    ensures MatchesFilter(DocFilter([Or([f, g])]), get) <==> MatchesFilter(f, get) || MatchesFilter(g, get)
    ensures MatchesFilter(DocFilter([Not(f)]), get) <==> !MatchesFilter(f, get)
    ensures MatchesFilter(DocFilter(f.conditions + g.conditions), get)
       <==> MatchesFilter(f, get) && MatchesFilter(g, get)
  {
    MatchesMeans(f, get);
    MatchesMeans(g, get);
    MatchesMeans(DocFilter(f.conditions + g.conditions), get);
    assert forall c :: c in f.conditions + g.conditions <==> c in f.conditions || c in g.conditions;
    OneMeans(And([f, g]), get);
    OneMeans(Or([f, g]), get);
    OneMeans(Not(f), get);
    assert [f, g][1..] == [g] && [g][1..] == [];
    assert MatchesEvery([g], get) == MatchesFilter(g, get) && MatchesAny([g], get) == MatchesFilter(g, get);
  }

  lemma OneMeans(c: FilterCondition, get: Fields)
    ensures MatchesFilter(DocFilter([c]), get) <==> MatchesCondition(c, get)
  {
    assert [c][1..] == [];
    assert MatchesConditions([c][1..], get);
  }

  function FieldsOf(schema: Schema, row: Row): Fields {
    (name: string) => Plans.NamedCell(row, schema, name)
  }

  predicate RowMatches(filter: Option<DocFilter>, schema: Schema, row: Row) {
    filter.Some? ==> MatchesFilter(filter.value, FieldsOf(schema, row))
  }

  /** The row has a cell in the column, and it is in this relation to the operand. */
  predicate CellReads(schema: Schema, field: string, op: FilterOp, cond: Operand, row: Row) {
    && field in schema.nameToIndex && schema.nameToIndex[field] < |row|
    && Reads(op, row[schema.nameToIndex[field]], cond)
  }

  function OneCondition(field: string, op: FilterOp, cond: Operand): Option<DocFilter> {
    Some(DocFilter([Cmp(field, op, cond)]))
  }

  /** A filter of one condition matches exactly the rows whose cell is in its relation to the operand; without
      a filter every row matches. */
  lemma OneConditionMeans(schema: Schema, field: string, op: FilterOp, cond: Operand, row: Row)
    ensures RowMatches(OneCondition(field, op, cond), schema, row) <==> CellReads(schema, field, op, cond, row)
    ensures RowMatches(None, schema, row)
  {
    var f, get := DocFilter([Cmp(field, op, cond)]), FieldsOf(schema, row);
    MatchesMeans(f, get);
    assert f.conditions[0] in f.conditions;
    assert Satisfies(f, get) <==> SatisfiesCondition(f.conditions[0], get);
  }

  function PairMatches(filter: Option<DocFilter>, schema: Schema): ((RowId, Row)) -> bool {
    (p: (RowId, Row)) => RowMatches(filter, schema, p.1)
  }

  function MatchingPairs(filter: Option<DocFilter>, schema: Schema, pairs: seq<(RowId, Row)>): seq<(RowId, Row)> {
    Select(PairMatches(filter, schema), pairs)
  }

  /** The store without the rows of `t` that match. */
  function WithoutMatching(s: RowState, t: TableId, filter: Option<DocFilter>, schema: Schema): RowState {
    s.(data := map k | k in s.data && !(k.0 == t && RowMatches(filter, schema, s.data[k])) :: s.data[k])
  }

  lemma {:induction false} PairsMembers(data: RowMap, t: TableId, rids: seq<RowId>)
    ensures forall p :: p in FetchPairs(data, t, rids) <==> p.0 in rids && (t, p.0) in data && data[(t, p.0)] == p.1
  {
    if rids != [] {
      assert rids == rids[..|rids| - 1] + [rids[|rids| - 1]];
      PairsMembers(data, t, rids[..|rids| - 1]);
    }
  }

  lemma ScanMembers(s: RowState, t: TableId)
    requires IdsGivenOut(s)
    ensures forall p :: p in ScanPairs(s, t) <==> (t, p.0) in s.data && s.data[(t, p.0)] == p.1
  {
    RidsMembers(s.data, t, s.next);
    PairsMembers(s.data, t, TableRids(s, t));
  }

  /** After deleting what a filter matches, finding with that filter finds nothing, the rows of the table
      that did not match are found as before, and other tables keep their rows. */
  lemma DeleteThenFind(s: RowState, t: TableId, filter: Option<DocFilter>, schema: Schema)
    requires IdsGivenOut(s)
    ensures
      var s' := WithoutMatching(s, t, filter, schema);
      && IdsGivenOut(s')
      && MatchingPairs(filter, schema, ScanPairs(s', t)) == []
      && (forall p :: p in ScanPairs(s', t) <==> p in ScanPairs(s, t) && !RowMatches(filter, schema, p.1))
      && (forall u :: u != t ==> TableRows(s', u) == TableRows(s, u))
  {
    var s' := WithoutMatching(s, t, filter, schema);
    ScanMembers(s, t);
    ScanMembers(s', t);
    NonEmptyHasMember(MatchingPairs(filter, schema, ScanPairs(s', t)));
    forall u | u != t ensures TableRows(s', u) == TableRows(s, u) {
      TableFrame(s, s', u);
    }
  }

  /** Deleting by one condition removes exactly the ids of the table whose row has its cell in the relation;
      deleting without a filter removes all of them. */
  lemma DeleteByOneCondition(s: RowState, t: TableId, schema: Schema, field: string, op: FilterOp, cond: Operand)
    ensures
      var s' := WithoutMatching(s, t, OneCondition(field, op, cond), schema);
      && s'.next == s.next
      && (forall k :: k in s'.data <==> k in s.data && !(k.0 == t && CellReads(schema, field, op, cond, s.data[k])))
      && (forall k :: k in s'.data ==> s'.data[k] == s.data[k])
    ensures forall k :: k in WithoutMatching(s, t, None, schema).data <==> k in s.data && k.0 != t
  {
    forall row { OneConditionMeans(schema, field, op, cond, row); }
  }

  lemma {:induction false} FoundInOrder(filter: Option<DocFilter>, schema: Schema, pairs: seq<(RowId, Row)>)
    requires AscendingIds(pairs)
    ensures AscendingIds(MatchingPairs(filter, schema, pairs))
  {
    if pairs != [] {
      var front, last := pairs[..|pairs| - 1], pairs[|pairs| - 1];
      FoundInOrder(filter, schema, front);
      forall q | q in MatchingPairs(filter, schema, front) ensures q.0 < last.0 {
        var i :| 0 <= i < |front| && front[i] == q;
        assert pairs[i] == q;
      }
      AscendingIdsSnoc(MatchingPairs(filter, schema, front), last);
    }
  }

  /** The store after deleting the listed rows one by one. */
  function Remaining(data: RowMap, t: TableId, pairs: seq<(RowId, Row)>): RowMap {
    if pairs == [] then data
    else Remaining(data, t, pairs[..|pairs| - 1]) - {(t, pairs[|pairs| - 1].0)}
  }

  lemma {:induction false} RemainingMembers(data: RowMap, t: TableId, pairs: seq<(RowId, Row)>)
    ensures forall k :: k in Remaining(data, t, pairs) <==> k in data && !(k.0 == t && RidAmong(pairs, k.1))
    ensures forall k :: k in Remaining(data, t, pairs) ==> Remaining(data, t, pairs)[k] == data[k]
  {
    if pairs != [] {
      var front, last := pairs[..|pairs| - 1], pairs[|pairs| - 1];
      assert pairs == front + [last];
      RemainingMembers(data, t, front);
      forall rid ensures RidAmong(pairs, rid) <==> RidAmong(front, rid) || rid == last.0 {
        if RidAmong(front, rid) {
          var i :| 0 <= i < |front| && front[i].0 == rid;
          assert pairs[i].0 == rid;
        }
        assert pairs[|front|].0 == last.0;
      }
    }
  }

  /** Rows that are stored, each listed once. */
  ghost predicate Deletable(data: RowMap, t: TableId, pairs: seq<(RowId, Row)>) {
    AscendingIds(pairs) && forall p :: p in pairs ==> (t, p.0) in data
  }

  /** Each listed row is still there when its turn comes. */
  lemma DeleteNext(data: RowMap, t: TableId, pairs: seq<(RowId, Row)>, k: nat)
    requires Deletable(data, t, pairs) && k < |pairs|
    ensures (t, pairs[k].0) in Remaining(data, t, pairs[..k])
    ensures Remaining(data, t, pairs[..k + 1]) == Remaining(data, t, pairs[..k]) - {(t, pairs[k].0)}
  {
    RemainingMembers(data, t, pairs[..k]);
    assert pairs[k] in pairs && pairs[..k + 1][..k] == pairs[..k];
  }

  lemma MapSizeWithout<K, V>(m: map<K, V>, k: K)
    requires k in m
    ensures |m - {k}| == |m| - 1
  {
    assert (m - {k}).Keys == m.Keys - {k};
    assert |m| == |m.Keys| && |m - {k}| == |(m - {k}).Keys|;
  }

  lemma {:induction false} RemainingSize(data: RowMap, t: TableId, pairs: seq<(RowId, Row)>, k: nat)
    requires Deletable(data, t, pairs) && k <= |pairs|
    ensures |Remaining(data, t, pairs[..k])| == |data| - k
  {
    if k > 0 {
      RemainingSize(data, t, pairs, k - 1);
      DeleteNext(data, t, pairs, k - 1);
      MapSizeWithout(Remaining(data, t, pairs[..k - 1]), (t, pairs[k - 1].0));
    }
  }

  lemma {:induction false} PairsAscend(data: RowMap, t: TableId, rids: seq<RowId>)
    requires Ascending(rids)
    ensures var pairs := FetchPairs(data, t, rids);
      AscendingIds(pairs) && forall p :: p in pairs ==> p.0 in rids
  {
    if rids != [] {
      var front, last := rids[..|rids| - 1], rids[|rids| - 1];
      PairsAscend(data, t, front);
      forall q | q in FetchPairs(data, t, front) ensures q.0 < last {
        var i :| 0 <= i < |front| && front[i] == q.0;
        assert rids[i] == q.0;
      }
      if (t, last) in data {
        AscendingIdsSnoc(FetchPairs(data, t, front), (last, data[(t, last)]));
      }
    }
  }

  lemma FoundIsDeletable(s: RowState, t: TableId, filter: Option<DocFilter>, schema: Schema)
    requires IdsGivenOut(s)
    ensures Deletable(s.data, t, MatchingPairs(filter, schema, ScanPairs(s, t)))
  {
    ScanMembers(s, t);
    RidsMembers(s.data, t, s.next);
    PairsAscend(s.data, t, TableRids(s, t));
    FoundInOrder(filter, schema, ScanPairs(s, t));
  }

  /** Deleting what was found leaves exactly the rows that do not match. */
  lemma RemainingIsWithoutMatching(s: RowState, t: TableId, filter: Option<DocFilter>, schema: Schema)
    requires IdsGivenOut(s)
    ensures Remaining(s.data, t, MatchingPairs(filter, schema, ScanPairs(s, t)))
      == WithoutMatching(s, t, filter, schema).data
  {
    var found := MatchingPairs(filter, schema, ScanPairs(s, t));
    ScanMembers(s, t);
    RemainingMembers(s.data, t, found);
    forall k | k in s.data && k.0 == t ensures RidAmong(found, k.1) <==> RowMatches(filter, schema, s.data[k]) {
      if RowMatches(filter, schema, s.data[k]) {
        assert (k.1, s.data[k]) in found;
      }
      if RidAmong(found, k.1) {
        var i :| 0 <= i < |found| && found[i].0 == k.1;
        assert found[i] in found;
      }
    }
  }

  /** Deleting in turn all that was found. */
  lemma FoundDeleted(s: RowState, t: TableId, filter: Option<DocFilter>, schema: Schema)
    requires IdsGivenOut(s)
    ensures
      var found := MatchingPairs(filter, schema, ScanPairs(s, t));
      && Remaining(s.data, t, found[..|found|]) == WithoutMatching(s, t, filter, schema).data
      && |WithoutMatching(s, t, filter, schema).data| == |s.data| - |found|
  {
    var found := MatchingPairs(filter, schema, ScanPairs(s, t));
    FoundIsDeletable(s, t, filter, schema);
    RemainingSize(s.data, t, found, |found|);
    RemainingIsWithoutMatching(s, t, filter, schema);
    assert found[..|found|] == found;
  }

  class DocumentCollection {
    const tableId: TableId
    const schema: Schema
    const store: TableStore

    constructor (tableId: TableId, schema: Schema, store: TableStore)
      ensures this.tableId == tableId && this.schema == schema && this.store == store
    {
      this.tableId, this.schema, this.store := tableId, schema, store;
    }

    method InsertOne(row: Row) returns (rid: RowId)
      modifies store
      ensures rid == old(store.nextRowId) && store.State() == InsertRow(old(store.State()), tableId, row)
    {
      rid := store.Insert(tableId, row);
    }

    /** Every stored row that matches, once, in ascending order of row id. */
    method Find(filter: Option<DocFilter>) returns (out: seq<(RowId, Row)>)
      requires IdsGivenOut(store.State())
      ensures out == MatchingPairs(filter, schema, ScanPairs(store.State(), tableId))
      ensures forall i, j :: 0 <= i < j < |out| ==> out[i].0 < out[j].0
      ensures forall p :: p in out <==>
        (tableId, p.0) in store.data && store.data[(tableId, p.0)] == p.1 && RowMatches(filter, schema, p.1)
    {
      var pairs := store.Scan(tableId);
      out := [];
      for i := 0 to |pairs|
        invariant out == MatchingPairs(filter, schema, pairs[..i])
      {
        assert pairs[..i + 1][..i] == pairs[..i];
        if RowMatches(filter, schema, pairs[i].1) {
          out := out + [pairs[i]];
        }
      }
      assert pairs[..|pairs|] == pairs;
      FoundInOrder(filter, schema, pairs);
    }

    method FindOne(filter: Option<DocFilter>) returns (r: Option<(RowId, Row)>)
      requires IdsGivenOut(store.State())
      ensures r.Some? ==>
        && (tableId, r.value.0) in store.data && store.data[(tableId, r.value.0)] == r.value.1
        && RowMatches(filter, schema, r.value.1)
      ensures forall rid :: (tableId, rid) in store.data && RowMatches(filter, schema, store.data[(tableId, rid)]) ==>
        r.Some? && r.value.0 <= rid
    {
      var out := Find(filter);
      r := if out == [] then None else Some(out[0]);
      forall rid | (tableId, rid) in store.data && RowMatches(filter, schema, store.data[(tableId, rid)])
        ensures r.Some? && r.value.0 <= rid
      {
        assert (rid, store.data[(tableId, rid)]) in out;
      }
    }

    /** Removes exactly the rows that match, and returns how many they were. */
    method DeleteMany(filter: Option<DocFilter>) returns (n: nat)
      requires IdsGivenOut(store.State())
      modifies store
      ensures store.State() == WithoutMatching(old(store.State()), tableId, filter, schema)
      ensures n == |MatchingPairs(filter, schema, ScanPairs(old(store.State()), tableId))|
      ensures |store.data| == |old(store.data)| - n
    {
      ghost var s := store.State();
      FoundIsDeletable(s, tableId, filter, schema);
      FoundDeleted(s, tableId, filter, schema);
      var found := Find(filter);
      n := 0;
      for i := 0 to |found|
        invariant n == i && store.State() == s.(data := Remaining(s.data, tableId, found[..i]))
      {
        DeleteNext(s.data, tableId, found, i);
        var deleted := store.Delete(tableId, found[i].0);
        if deleted {
          n := n + 1;
        }
      }
    }
  }

  predicate RidAmong(pairs: seq<(RowId, Row)>, rid: RowId) {
    exists i :: 0 <= i < |pairs| && pairs[i].0 == rid
  }
}
