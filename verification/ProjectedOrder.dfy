/** ORDER BY over a projection: the comparator reads the table's column positions in the projected rows. */
module ProjectedOrder {
  import opened Engine
  import opened Plans
  import opened RowOrder
  import opened Schemas
  import opened Seqs
  import opened Sorting
  import opened Values

  lemma MapHead<S, T>(f: S -> T, x: S, s: seq<S>)
    ensures Map(f, [x] + s) == [f(x)] + Map(f, s)
  {
  }

  lemma {:induction false} InsertCommutes<S(!new), T>(f: S -> T, lt: (T, T) -> bool, before: (S, S) -> bool, x: S,
                                                      s: seq<S>)
    requires forall y :: y in s ==> lt(f(y), f(x)) == before(y, x)
    ensures InsertSorted(lt, f(x), Map(f, s)) == Map(f, InsertSorted(before, x, s))
  {
    if s == [] {
    } else if before(s[0], x) {
      assert Map(f, s)[1..] == Map(f, s[1..]);
      InsertCommutes(f, lt, before, x, s[1..]);
      MapHead(f, s[0], InsertSorted(before, x, s[1..]));
    } else {
      MapHead(f, x, s);
    }
  }

  /** A map that keeps the comparison may be applied before or after sorting. */
  lemma {:induction false} SortCommutes<S(!new), T>(f: S -> T, lt: (T, T) -> bool, before: (S, S) -> bool, s: seq<S>)
    requires forall x, y :: x in s && y in s ==> lt(f(x), f(y)) == before(x, y)
    ensures StableSort(lt, Map(f, s)) == Map(f, StableSort(before, s))
  {
    if s != [] {
      var rest := StableSort(before, s[1..]);
      assert Map(f, s)[1..] == Map(f, s[1..]);
      SortCommutes(f, lt, before, s[1..]);
      SameMembers(rest, s[1..]);
      InsertCommutes(f, lt, before, s[0], rest);
    }
  }

  /** Where nothing comes before anything, sorting changes nothing. */
  lemma {:induction false} SortWithoutOrder<T(!new)>(lt: (T, T) -> bool, s: seq<T>)
    requires forall x, y :: x in s && y in s ==> !lt(x, y)
    ensures StableSort(lt, s) == s
  {
    if s != [] {
      SortWithoutOrder(lt, s[1..]);
      assert s == [s[0]] + s[1..];
    }
  }

  lemma SortByNothing(s: seq<Row>)
    ensures StableSort(Before([]), s) == s
  {
    SortWithoutOrder(Before([]), s);
  }

  /** The cells that the ordering reads are where they were before the projection. */
  predicate PositionsKept(names: seq<string>, schema: Schema, order: seq<(nat, bool)>, rows: seq<Row>) {
    forall row, p :: row in rows && p in order ==> Cell(ProjectRow(names, schema, row), p.0) == Cell(row, p.0)
  }

  lemma {:induction false} SameComparison(order: seq<(nat, bool)>, a: Row, b: Row, a': Row, b': Row)
    requires forall p :: p in order ==> Cell(a, p.0) == Cell(a', p.0) && Cell(b, p.0) == Cell(b', p.0)
    ensures CompareRows(order, a, b) == CompareRows(order, a', b')
  {
    if order != [] {
      assert order[0] in order;
      SameComparison(order[1..], a, b, a', b');
    }
  }

  /** Where the positions are kept, ordering the projected rows is projecting the ordered rows. */
  lemma OrderThenProject(names: seq<string>, schema: Schema, order: seq<(nat, bool)>, rows: seq<Row>)
    requires PositionsKept(names, schema, order, rows)
    ensures StableSort(Before(order), ProjectRows(names, schema, rows))
      == ProjectRows(names, schema, StableSort(Before(order), rows))
  {
    var f := (row: Row) => ProjectRow(names, schema, row);
    forall x, y | x in rows && y in rows ensures Before(order)(f(x), f(y)) == Before(order)(x, y) {
      SameComparison(order, x, y, f(x), f(y));
    }
    SortCommutes(f, Before(order), Before(order), rows);
  }

  predicate AreColumns(schema: Schema, names: seq<string>) {
    forall k :: 0 <= k < |names| ==> ColumnIndex(schema, names[k]).Some?
  }

  predicate AreFull(schema: Schema, rows: seq<Row>) {
    forall row :: row in rows ==> |row| == |schema.columns|
  }

  lemma IndexInRange(schema: Schema, name: string)
    requires Indexed(schema) && ColumnIndex(schema, name).Some?
    ensures ColumnIndex(schema, name).value < |schema.columns|
  {
    ColumnIndexIsLast(schema.columns, name);
  }

  lemma {:induction false} ProjectedCells(names: seq<string>, schema: Schema, row: Row)
    requires Indexed(schema) && AreColumns(schema, names) && |row| == |schema.columns|
    ensures var r := ProjectRow(names, schema, row);
      |r| == |names| && forall k :: 0 <= k < |names| ==> Some(r[k]) == NamedCell(row, schema, names[k])
  {
    if names != [] {
      var n := |names| - 1;
      ProjectedCells(names[..n], schema, row);
      IndexInRange(schema, names[n]);
    }
  }

  /** Ordering projected rows by a column gives what projecting the ordered rows gives. */
  ghost predicate OrdersByColumn(names: seq<string>, schema: Schema, i: nat, asc: bool, rows: seq<Row>) {
    StableSort(Before([(i, asc)]), ProjectRows(names, schema, rows))
        == ProjectRows(names, schema, StableSort(Before([(i, asc)]), rows))
  }

  function OddOneOut(n: nat, i: nat, v: i64, w: i64): Row {
    seq(n, k requires 0 <= k < n => if k == i then Int64(v) else Int64(w))
  }

  lemma SortOfTwo(lt: (Row, Row) -> bool, a: Row, b: Row)
    ensures StableSort(lt, [a, b]) == if lt(b, a) then [b, a] else [a, b]
  {
    assert [a, b][1..] == [b] && [b][1..] == [];
    assert StableSort(lt, [b]) == [b];
    assert [b] + InsertSorted(lt, a, []) == [b, a];
  }

  lemma Swapped(names: seq<string>, schema: Schema, i: nat, asc: bool, a: Row, b: Row)
    requires Before([(i, asc)])(b, a) && ProjectRow(names, schema, a) != ProjectRow(names, schema, b)
    requires !Before([(i, asc)])(ProjectRow(names, schema, b), ProjectRow(names, schema, a))
    ensures !OrdersByColumn(names, schema, i, asc, [a, b])
  {
    var p, q := ProjectRow(names, schema, a), ProjectRow(names, schema, b);
    SortOfTwo(Before([(i, asc)]), a, b);
    SortOfTwo(Before([(i, asc)]), p, q);
    assert ProjectRows(names, schema, [a, b]) == [p, q];
    assert ProjectRows(names, schema, [b, a])[0] == q;
  }

  /** What the projection shows of a row that differs from others at one column only. */
  lemma OddOneProjected(names: seq<string>, schema: Schema, i: nat, v: i64, w: i64)
    requires Indexed(schema) && AreColumns(schema, names)
    requires !(i < |names| && ColumnIndex(schema, names[i]) == Some(i))
    ensures Cell(ProjectRow(names, schema, OddOneOut(|schema.columns|, i, v, w)), i)
      == if i < |names| then Some(Int64(w)) else None
    ensures names != [] ==>
      Cell(ProjectRow(names, schema, OddOneOut(|schema.columns|, i, v, w)), 0)
        == Some(Int64(if ColumnIndex(schema, names[0]) == Some(i) then v else w))
  {
    ProjectedCells(names, schema, OddOneOut(|schema.columns|, i, v, w));
    if i < |names| {
      IndexInRange(schema, names[i]);
    }
    if names != [] {
      IndexInRange(schema, names[0]);
    }
  }

  /** Two rows that a misplaced column leaves in the wrong order. */
  lemma Misordered(names: seq<string>, schema: Schema, i: nat, asc: bool) returns (rows: seq<Row>)
    requires Indexed(schema) && AreColumns(schema, names) && i < |schema.columns| && names != []
    requires !(i < |names| && ColumnIndex(schema, names[i]) == Some(i))
    ensures AreFull(schema, rows) && !OrdersByColumn(names, schema, i, asc, rows)
  {
    var n := |schema.columns|;
    var (v, w) := if asc then (2, 1) else (1, 2);
    var a, b := OddOneOut(n, i, v, w), OddOneOut(n, i, w, v);
    OddOneProjected(names, schema, i, v, w);
    OddOneProjected(names, schema, i, w, v);
    CompareByOne(i, asc, b, a);
    CompareByOne(i, asc, ProjectRow(names, schema, b), ProjectRow(names, schema, a));
    Swapped(names, schema, i, asc, a, b);
    rows := [a, b];
  }

  ghost predicate AlwaysOrders(names: seq<string>, schema: Schema, i: nat, asc: bool) {
    forall rows :: AreFull(schema, rows) ==> OrdersByColumn(names, schema, i, asc, rows)
  }

  lemma KeptColumnOrders(names: seq<string>, schema: Schema, i: nat, asc: bool)
    requires Indexed(schema) && AreColumns(schema, names)
    requires i < |names| && ColumnIndex(schema, names[i]) == Some(i)
    ensures AlwaysOrders(names, schema, i, asc)
  {
    forall rows | AreFull(schema, rows) ensures OrdersByColumn(names, schema, i, asc, rows) {
      forall row | row in rows ensures Cell(ProjectRow(names, schema, row), i) == Cell(row, i) {
        ProjectedCells(names, schema, row);
      }
      OrderThenProject(names, schema, [(i, asc)], rows);
    }
  }

  lemma NothingOrders(schema: Schema, i: nat, asc: bool)
    ensures AlwaysOrders([], schema, i, asc)
  {
    forall rows | AreFull(schema, rows) ensures OrdersByColumn([], schema, i, asc, rows) {
      var sorted := StableSort(Before([(i, asc)]), rows);
      assert |multiset(sorted)| == |sorted| && |multiset(rows)| == |rows|;
      assert ProjectRows([], schema, rows) == ProjectRows([], schema, sorted);
      CompareByOne(i, asc, [], []);
      SortWithoutOrder(Before([(i, asc)]), ProjectRows([], schema, rows));
    }
  }

  // ----- projections that name columns the table lacks

  /** The names that a projection shows: those of no column are skipped. */
  function KnownNames(schema: Schema, names: seq<string>): seq<string> {
    Select((name: string) => ColumnIndex(schema, name).Some?, names)
  }

  lemma KnownAreColumns(schema: Schema, names: seq<string>)
    ensures AreColumns(schema, KnownNames(schema, names))
  {
    var known := KnownNames(schema, names);
    assert forall k :: 0 <= k < |known| ==> known[k] in known;
  }

  lemma OneNameMore(names: seq<string>, name: string, schema: Schema, row: Row)
    requires NamedCell(row, schema, name).Some?
    ensures ProjectRow(names + [name], schema, row)
      == ProjectRow(names, schema, row) + [NamedCell(row, schema, name).value]
  {
    Snoc(names, name);
  }

  lemma {:induction false} UnknownNamesSkipped(names: seq<string>, schema: Schema, row: Row)
    requires Indexed(schema) && |row| == |schema.columns|
    ensures ProjectRow(names, schema, row) == ProjectRow(KnownNames(schema, names), schema, row)
  {
    if names != [] {
      var before, name := names[..|names| - 1], names[|names| - 1];
      UnknownNamesSkipped(before, schema, row);
      if ColumnIndex(schema, name).Some? {
        IndexInRange(schema, name);
        OneNameMore(KnownNames(schema, before), name, schema, row);
      }
    }
  }

  lemma UnknownNamesNeverShow(names: seq<string>, schema: Schema, rows: seq<Row>)
    requires Indexed(schema) && AreFull(schema, rows)
    ensures ProjectRows(names, schema, rows) == ProjectRows(KnownNames(schema, names), schema, rows)
  {
    forall k | 0 <= k < |rows|
      ensures ProjectRow(names, schema, rows[k]) == ProjectRow(KnownNames(schema, names), schema, rows[k])
    {
      assert rows[k] in rows;
      UnknownNamesSkipped(names, schema, rows[k]);
    }
  }

  lemma OnlyKnownNamesOrder(names: seq<string>, schema: Schema, i: nat, asc: bool)
    requires Indexed(schema)
    ensures AlwaysOrders(names, schema, i, asc) <==> AlwaysOrders(KnownNames(schema, names), schema, i, asc)
  {
    forall rows | AreFull(schema, rows)
      ensures OrdersByColumn(names, schema, i, asc, rows)
        <==> OrdersByColumn(KnownNames(schema, names), schema, i, asc, rows)
    {
      var sorted := StableSort(Before([(i, asc)]), rows);
      SameMembers(sorted, rows);
      UnknownNamesNeverShow(names, schema, rows);
      UnknownNamesNeverShow(names, schema, sorted);
    }
  }

  /** Over a projection, ORDER BY of a column is right for all tables exactly when the columns that the
      projection shows have the column at the position it has in the table (or are none at all). */
  lemma OrderAfterProjectIff(names: seq<string>, schema: Schema, c: string, asc: bool)
    requires Indexed(schema) && ColumnIndex(schema, c).Some?
    ensures var (i, shown) := (ColumnIndex(schema, c).value, KnownNames(schema, names));
      AlwaysOrders(names, schema, i, asc) <==> shown == [] || (i < |shown| && ColumnIndex(schema, shown[i]) == Some(i))
  {
    var i, shown := ColumnIndex(schema, c).value, KnownNames(schema, names);
    KnownAreColumns(schema, names);
    OnlyKnownNamesOrder(names, schema, i, asc);
    IndexInRange(schema, c);
    if shown == [] {
      NothingOrders(schema, i, asc);
    } else if i < |shown| && ColumnIndex(schema, shown[i]) == Some(i) {
      KeptColumnOrders(shown, schema, i, asc);
    } else {
      var rows := Misordered(shown, schema, i, asc);
    }
  }
}
