/** ORDER BY: the comparator over several columns, each with its direction. */
module RowOrder {
  import Lex
  import opened Seqs
  import opened Sorting
  import opened Values

  /** A missing cell comes first; values that do not compare tie. */
  function CompareCells(a: Option<Value>, b: Option<Value>): Ordering {
    match (a, b)
    case (None, None) => Equal
    case (None, _) => Less
    case (_, None) => Greater
    case (Some(v), Some(w)) => match Compare(v, w) { case Some(o) => o case None => Equal }
  }

  /** The first column that tells the rows apart decides; `false` reverses a column. */
  function CompareRows(order: seq<(nat, bool)>, a: Row, b: Row): Ordering {
    if order == [] then Equal
    else
      var o := CompareCells(Cell(a, order[0].0), Cell(b, order[0].0));
      if o == Equal then CompareRows(order[1..], a, b)
      else if order[0].1 then o else o.Reverse()
  }

  function Before(order: seq<(nat, bool)>): (Row, Row) -> bool {
    (a: Row, b: Row) => CompareRows(order, a, b) == Less
  }

  /** Two cells that the comparator tells apart: different integers, or different strings. */
  predicate Tells(a: Option<Value>, b: Option<Value>) {
    a.Some? && b.Some? && Compare(a.value, b.value).Some? && a != b
  }

  predicate SameKind(a: Option<Value>, b: Option<Value>) {
    a.Some? && b.Some? ==> Compare(a.value, b.value).Some?
  }

  /** Where a column tells two rows apart, every other row that has the column has a cell of their kind. */
  predicate Orderable(rows: seq<Row>, i: nat) {
    forall x, y, z :: x in rows && y in rows && z in rows ==>
      Tells(Cell(x, i), Cell(y, i)) ==> SameKind(Cell(x, i), Cell(z, i))
  }

  predicate Comparable(rows: seq<Row>, order: seq<(nat, bool)>) {
    forall p :: p in order ==> Orderable(rows, p.0)
  }

  predicate AllIntegers(rows: seq<Row>, i: nat) {
    forall row: Row :: row in rows && i < |row| ==> row[i].Int64?
  }

  predicate AllStrings(rows: seq<Row>, i: nat) {
    forall row: Row :: row in rows && i < |row| ==> row[i].Str?
  }

  lemma OneKindIsOrderable(rows: seq<Row>, i: nat)
    requires AllIntegers(rows, i) || AllStrings(rows, i)
    ensures Orderable(rows, i)
  {
  }

  lemma CellsReverse(a: Option<Value>, b: Option<Value>)
    ensures CompareCells(b, a) == CompareCells(a, b).Reverse()
  {
    if a.Some? && b.Some? && a.value.Str? && b.value.Str? {
      Lex.LtIsTotal(a.value.s, b.value.s);
      if Lex.Lt(a.value.s, b.value.s) { Lex.LtIsStrict(a.value.s, b.value.s); }
      if Lex.Lt(b.value.s, a.value.s) { Lex.LtIsStrict(b.value.s, a.value.s); }
    }
  }

  /** Among three cells, none is of another kind than two that are told apart. */
  predicate OneOrder(a: Option<Value>, b: Option<Value>, c: Option<Value>) {
    && (Tells(a, b) ==> SameKind(a, c))
    && (Tells(a, c) ==> SameKind(a, b))
    && (Tells(b, c) ==> SameKind(b, a))
  }

  lemma TextTransitive(a: Utf8, b: Utf8, c: Utf8)
    requires CmpText(a, b) != Less && CmpText(b, c) != Less
    ensures CmpText(a, c) != Less
  {
    Lex.LtIsTotal(a, b);
    Lex.LtIsTotal(b, c);
    if Lex.Lt(c, b) && Lex.Lt(b, a) {
      Lex.LtIsTransitive(c, b, a);
      Lex.LtIsStrict(c, a);
    } else if Lex.Lt(b, a) {
      Lex.LtIsStrict(b, a);
    } else if Lex.Lt(c, b) {
      Lex.LtIsStrict(c, b);
    }
  }

  lemma CellsTransitive(a: Option<Value>, b: Option<Value>, c: Option<Value>)
    requires OneOrder(a, b, c) && CompareCells(a, b) != Less && CompareCells(b, c) != Less
    ensures CompareCells(a, c) != Less
  {
    if a.Some? && b.Some? && c.Some? && a.value.Str? && b.value.Str? && c.value.Str? {
      TextTransitive(a.value.s, b.value.s, c.value.s);
    }
  }

  /** The three ways round in which two comparisons are chained. */
  lemma CellsChain(a: Option<Value>, b: Option<Value>, c: Option<Value>)
    requires OneOrder(a, b, c)
    ensures CompareCells(a, b) == Equal && CompareCells(b, c) == Equal ==> CompareCells(a, c) == Equal
    ensures CompareCells(a, b) != Less && CompareCells(b, c) != Less && CompareCells(a, c) == Equal ==>
      CompareCells(a, b) == Equal && CompareCells(b, c) == Equal
    ensures CompareCells(a, b) != Less && CompareCells(b, c) != Less ==> CompareCells(a, c) != Less
    ensures CompareCells(a, b) != Greater && CompareCells(b, c) != Greater && CompareCells(a, c) == Equal ==>
      CompareCells(a, b) == Equal && CompareCells(b, c) == Equal
    ensures CompareCells(a, b) != Greater && CompareCells(b, c) != Greater ==> CompareCells(a, c) != Greater
  {
    CellsReverse(a, b);
    CellsReverse(b, c);
    CellsReverse(a, c);
    if CompareCells(a, b) != Less && CompareCells(b, c) != Less {
      CellsTransitive(a, b, c);
      if CompareCells(a, c) == Equal {
        CellsTransitive(c, a, b);
        CellsTransitive(b, c, a);
      }
    }
    if CompareCells(a, b) != Greater && CompareCells(b, c) != Greater {
      CellsTransitive(c, b, a);
      if CompareCells(a, c) == Equal {
        CellsTransitive(a, c, b);
        CellsTransitive(b, a, c);
      }
    }
  }

  lemma {:induction false} RowsReverse(order: seq<(nat, bool)>, a: Row, b: Row)
    ensures CompareRows(order, b, a) == CompareRows(order, a, b).Reverse()
  {
    if order != [] {
      CellsReverse(Cell(a, order[0].0), Cell(b, order[0].0));
      RowsReverse(order[1..], a, b);
    }
  }

  lemma {:induction false} RowsTransitive(order: seq<(nat, bool)>, a: Row, b: Row, c: Row)
    requires forall p :: p in order ==> OneOrder(Cell(a, p.0), Cell(b, p.0), Cell(c, p.0))
    requires CompareRows(order, a, b) != Less && CompareRows(order, b, c) != Less
    ensures CompareRows(order, a, c) != Less
  {
    if order != [] {
      assert order[0] in order;
      var i := order[0].0;
      var (x, y, z) := (Cell(a, i), Cell(b, i), Cell(c, i));
      CellsChain(x, y, z);
      if CompareCells(x, y) == Equal && CompareCells(y, z) == Equal {
        RowsTransitive(order[1..], a, b, c);
      }
    }
  }

  lemma KindsMatch(rows: seq<Row>, order: seq<(nat, bool)>, a: Row, b: Row, c: Row)
    requires Comparable(rows, order) && a in rows && b in rows && c in rows
    ensures forall p :: p in order ==> OneOrder(Cell(a, p.0), Cell(b, p.0), Cell(c, p.0))
  {
    forall p | p in order ensures OneOrder(Cell(a, p.0), Cell(b, p.0), Cell(c, p.0)) {
      assert Orderable(rows, p.0);
    }
  }

  /** On orderable columns, several of them and in any directions, the comparator orders the rows up to ties. */
  lemma ComparatorIsWeakOrder(rows: seq<Row>, order: seq<(nat, bool)>)
    requires Comparable(rows, order)
    ensures WeakOrderOn(Before(order), rows)
  {
    forall x, y | x in rows && y in rows && Before(order)(x, y) ensures !Before(order)(y, x) {
      RowsReverse(order, x, y);
    }
    forall x, y, z | x in rows && y in rows && z in rows && !Before(order)(x, y) && !Before(order)(y, z)
      ensures !Before(order)(x, z)
    {
      KindsMatch(rows, order, x, y, z);
      RowsTransitive(order, x, y, z);
    }
  }

  lemma CompareByOne(i: nat, asc: bool, a: Row, b: Row)
    ensures CompareRows([(i, asc)], a, b) ==
      var o := CompareCells(Cell(a, i), Cell(b, i)); if asc then o else o.Reverse()
  {
    assert [(i, asc)][1..] == [];
  }

  /** A third kind of cell ties with both of two that are told apart, so ties do not chain. */
  lemma TiesDoNotChain(rows: seq<Row>, i: nat, asc: bool, x: Row, y: Row, z: Row)
    requires x in rows && y in rows && z in rows
    requires Tells(Cell(x, i), Cell(y, i)) && !SameKind(Cell(x, i), Cell(z, i))
    ensures !WeakOrderOn(Before([(i, asc)]), rows)
  {
    var lt := Before([(i, asc)]);
    CellsReverse(Cell(x, i), Cell(y, i));
    TellsIsStrict(Cell(x, i), Cell(y, i));
    forall a, b | a in [x, y, z] && b in [x, y, z]
      ensures lt(a, b) == (CompareCells(Cell(a, i), Cell(b, i)) == if asc then Less else Greater)
    {
      CompareByOne(i, asc, a, b);
    }
    assert x in [x, y, z] && y in [x, y, z] && z in [x, y, z];
    assert !lt(x, z) && !lt(z, y) && !lt(y, z) && !lt(z, x);
    assert lt(x, y) || lt(y, x);
  }

  lemma TellsIsStrict(a: Option<Value>, b: Option<Value>)
    requires Tells(a, b)
    ensures CompareCells(a, b) != Equal
  {
  }

  /** One column, in either direction, orders rows up to ties exactly when it is orderable: when it tells
      no two rows apart, or holds integers only, or strings only. */
  lemma ColumnOrdersIff(rows: seq<Row>, i: nat, asc: bool)
    ensures WeakOrderOn(Before([(i, asc)]), rows) <==> Orderable(rows, i)
  {
    if Orderable(rows, i) {
      ComparatorIsWeakOrder(rows, [(i, asc)]);
    } else {
      var x, y, z :|
        x in rows && y in rows && z in rows && Tells(Cell(x, i), Cell(y, i)) && !SameKind(Cell(x, i), Cell(z, i));
      TiesDoNotChain(rows, i, asc, x, y, z);
    }
  }

  /** The result is the one stable sorted permutation of the rows. */
  lemma OrderByIsTheStableSort(rows: seq<Row>, order: seq<(nat, bool)>, r: seq<Row>)
    requires Comparable(rows, order)
    ensures IsStableSort(Before(order), r, rows) <==> r == StableSort(Before(order), rows)
  {
    ComparatorIsWeakOrder(rows, order);
    SortIsTheStableSort(Before(order), rows, r);
  }

  /** A Null ties with every integer, so a column that mixes them has no order to sort by. */
  lemma NullsBreakTheOrder()
    ensures !WeakOrderOn(Before([(0, true)]), [[Int64(1)], [Null], [Int64(2)]])
  {
    var rows: seq<Row> := [[Int64(1)], [Null], [Int64(2)]];
    assert rows[0] in rows && rows[1] in rows && rows[2] in rows;
    TiesDoNotChain(rows, 0, true, rows[0], rows[2], rows[1]);
  }
}
