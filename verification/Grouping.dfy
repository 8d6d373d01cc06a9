/** GROUP BY: rows gathered under the rendering of their key cells. */
module Grouping {
  import opened Columnar
  import opened Lex
  import opened Saturation
  import opened Seqs
  import opened Values

  type Renderer = Value -> Key

  /** What is used of the debug rendering of values: it tells values apart, is never empty, and never
      contains the separator. */
  ghost predicate Faithful(render: Renderer) {
    && (forall v :: render(v) != [] && 0 !in render(v))
    && (forall v, w :: render(v) == render(w) ==> v == w)
  }

  /** The key cells of a row; a cell that the row is too short for is left out. */
  function KeyCells(row: Row, indices: seq<nat>): seq<Value> {
    if indices == [] then []
    else
      var before, i := KeyCells(row, indices[..|indices| - 1]), indices[|indices| - 1];
      if i < |row| then before + [row[i]] else before
  }

  /** Renderings joined by a zero byte. */
  function Join(render: Renderer, values: seq<Value>): Key {
    if values == [] then []
    else if |values| == 1 then render(values[0])
    else render(values[0]) + [0] + Join(render, values[1..])
  }

  function KeyOf(render: Renderer, indices: seq<nat>, row: Row): Key {
    Join(render, KeyCells(row, indices))
  }

  type Groups = map<Key, (seq<Value>, seq<Row>)>

  function AddToGroup(render: Renderer, indices: seq<nat>, groups: Groups, row: Row): Groups {
    var key := KeyOf(render, indices, row);
    if key in groups then groups[key := (groups[key].0, groups[key].1 + [row])]
    else groups[key := (KeyCells(row, indices), [row])]
  }

  function GroupRows(render: Renderer, indices: seq<nat>, rows: seq<Row>): Groups {
    if rows == [] then map[]
    else AddToGroup(render, indices, GroupRows(render, indices, rows[..|rows| - 1]), rows[|rows| - 1])
  }

  method CollectGroups(render: Renderer, indices: seq<nat>, rows: seq<Row>) returns (groups: Groups)
    ensures groups == GroupRows(render, indices, rows)
  {
    groups := map[];
    for k := 0 to |rows|
      invariant groups == GroupRows(render, indices, rows[..k])
    {
      assert rows[..k + 1][..k] == rows[..k];
      var cells := KeyCells(rows[k], indices);
      var key := Join(render, cells);
      var (keyCells, members) := if key in groups then groups[key] else (cells, []);
      assert [] + [rows[k]] == [rows[k]];
      groups := groups[key := (keyCells, members + [rows[k]])];
    }
    assert rows[..|rows|] == rows;
  }

  function WithKey(render: Renderer, indices: seq<nat>, key: Key, rows: seq<Row>): seq<Row> {
    Select((row: Row) => KeyOf(render, indices, row) == key, rows)
  }

  function WithCells(indices: seq<nat>, cells: seq<Value>, rows: seq<Row>): seq<Row> {
    Select((row: Row) => KeyCells(row, indices) == cells, rows)
  }

  lemma {:induction false} GroupsByKey(render: Renderer, indices: seq<nat>, rows: seq<Row>)
    ensures
      var g := GroupRows(render, indices, rows);
      && (forall row :: row in rows ==> KeyOf(render, indices, row) in g)
      && (forall k :: k in g ==>
            g[k].1 == WithKey(render, indices, k, rows) && g[k].1 != [] && Join(render, g[k].0) == k)
  {
    if rows != [] {
      var before, row := rows[..|rows| - 1], rows[|rows| - 1];
      assert rows == before + [row];
      GroupsByKey(render, indices, before);
      var key := KeyOf(render, indices, row);
      if key !in GroupRows(render, indices, before) {
        SelectNone((r: Row) => KeyOf(render, indices, r) == key, before);
      }
    }
  }

  lemma LongerHasZero(a: Key, s: Key, b: Key, t: Key)
    requires a + s == b + t && |a| < |b| && (s == [] || s[0] == 0)
    ensures 0 in b
  {
    assert (a + s)[|a|] == b[|a|];
    assert |a| + |s| == |a + s| == |b + t| == |b| + |t|;
    assert (a + s)[|a|] == s[0];
  }

  lemma PrefixBeforeZero(a: Key, s: Key, b: Key, t: Key)
    requires 0 !in a && 0 !in b && a + s == b + t
    requires (s == [] || s[0] == 0) && (t == [] || t[0] == 0)
    ensures a == b && s == t
  {
    assert |a| == |b| by {
      if |a| < |b| { LongerHasZero(a, s, b, t); }
      if |b| < |a| { LongerHasZero(b, t, a, s); }
    }
    assert a == (a + s)[..|a|] && b == (b + t)[..|b|];
    assert s == (a + s)[|a|..] && t == (b + t)[|b|..];
  }

  /** What follows the first rendering of a joined key. */
  function JoinTail(render: Renderer, values: seq<Value>): Key
    requires values != []
  {
    if |values| == 1 then [] else [0] + Join(render, values[1..])
  }

  lemma {:induction false} JoinInjective(render: Renderer, a: seq<Value>, b: seq<Value>)
    requires Faithful(render) && Join(render, a) == Join(render, b)
    ensures a == b
  {
    if a != [] && b != [] {
      var s, t := JoinTail(render, a), JoinTail(render, b);
      assert Join(render, a) == render(a[0]) + s;
      assert Join(render, b) == render(b[0]) + t;
      PrefixBeforeZero(render(a[0]), s, render(b[0]), t);
      if |a| > 1 {
        assert s[1..] == Join(render, a[1..]) && t[1..] == Join(render, b[1..]);
        JoinInjective(render, a[1..], b[1..]);
      }
      assert a == [a[0]] + a[1..] && b == [b[0]] + b[1..];
    } else {
      JoinEmpty(render, a);
      JoinEmpty(render, b);
    }
  }

  lemma JoinEmpty(render: Renderer, a: seq<Value>)
    requires Faithful(render)
    ensures Join(render, a) == [] <==> a == []
  {
  }

  /** Groups partition the rows: each group has its own key cells and is the in-order list of the rows
      that have them, and every row is in the group of its key cells. */
  lemma GroupsPartitionRows(render: Renderer, indices: seq<nat>, rows: seq<Row>)
    requires Faithful(render)
    ensures
      var g := GroupRows(render, indices, rows);
      && (forall k :: k in g ==> g[k].1 != [] && g[k].1 == WithCells(indices, g[k].0, rows))
      && (forall j, k :: j in g && k in g && g[j].0 == g[k].0 ==> j == k)
      && (forall row :: row in rows ==> exists k :: k in g && g[k].0 == KeyCells(row, indices) && row in g[k].1)
  {
    var g := GroupRows(render, indices, rows);
    GroupsByKey(render, indices, rows);
    forall k | k in g ensures g[k].1 == WithCells(indices, g[k].0, rows) {
      forall row | row in rows ensures KeyOf(render, indices, row) == k <==> KeyCells(row, indices) == g[k].0 {
        if KeyOf(render, indices, row) == k {
          JoinInjective(render, KeyCells(row, indices), g[k].0);
        }
      }
      SelectAgrees((row: Row) => KeyOf(render, indices, row) == k, (row: Row) => KeyCells(row, indices) == g[k].0,
                   rows);
    }
    forall row | row in rows ensures exists k :: k in g && g[k].0 == KeyCells(row, indices) && row in g[k].1 {
      var k := KeyOf(render, indices, row);
      JoinInjective(render, KeyCells(row, indices), g[k].0);
    }
  }

  // ----- totals over groups

  function Weight(w: Row -> int, rows: seq<Row>): int {
    if rows == [] then 0 else Weight(w, rows[..|rows| - 1]) + w(rows[|rows| - 1])
  }

  /** The weights of the groups under `keys`, added up. */
  function GroupWeights(w: Row -> int, render: Renderer, indices: seq<nat>, keys: seq<Key>, rows: seq<Row>): int {
    if keys == [] then 0
    else
      GroupWeights(w, render, indices, keys[..|keys| - 1], rows)
      + Weight(w, WithKey(render, indices, keys[|keys| - 1], rows))
  }

  lemma {:induction false} OneMoreRow(w: Row -> int, render: Renderer, indices: seq<nat>, keys: seq<Key>,
                                      rows: seq<Row>, row: Row)
    requires Increasing(keys)
    ensures GroupWeights(w, render, indices, keys, rows + [row]) ==
      GroupWeights(w, render, indices, keys, rows) + if KeyOf(render, indices, row) in keys then w(row) else 0
  {
    if keys != [] {
      var front, k := keys[..|keys| - 1], keys[|keys| - 1];
      assert keys == front + [k];
      OneMoreRow(w, render, indices, front, rows, row);
      Snoc(rows, row);
      Snoc(WithKey(render, indices, k, rows), row);
      if k in front {
        var i :| 0 <= i < |front| && front[i] == k;
        IncreasingIsDistinct(keys, i, |front|);
      }
    }
  }

  lemma {:induction false} NoRowsNoWeight(w: Row -> int, render: Renderer, indices: seq<nat>, keys: seq<Key>)
    ensures GroupWeights(w, render, indices, keys, []) == 0
  {
    if keys != [] {
      NoRowsNoWeight(w, render, indices, keys[..|keys| - 1]);
    }
  }

  /** Any total that adds up over rows adds up over groups. */
  lemma {:induction false} GroupsAddUp(w: Row -> int, render: Renderer, indices: seq<nat>, keys: seq<Key>,
                                       rows: seq<Row>)
    requires Increasing(keys) && forall row :: row in rows ==> KeyOf(render, indices, row) in keys
    ensures GroupWeights(w, render, indices, keys, rows) == Weight(w, rows)
  {
    if rows == [] {
      NoRowsNoWeight(w, render, indices, keys);
    } else {
      var before, row := rows[..|rows| - 1], rows[|rows| - 1];
      assert rows == before + [row];
      GroupsAddUp(w, render, indices, keys, before);
      OneMoreRow(w, render, indices, keys, before, row);
    }
  }

  function IntAt(i: nat): Row -> int {
    (row: Row) => if i < |row| && row[i].Int64? then row[i].i else 0
  }

  function AbsAt(i: nat): Row -> int {
    (row: Row) => if i < |row| && row[i].Int64? then Abs(row[i].i) else 0
  }

  lemma {:induction false} WeightIsTotal(i: nat, rows: seq<Row>)
    ensures Weight(IntAt(i), rows) == Total(Ints(Cells(rows, i)))
    ensures Weight(AbsAt(i), rows) == TotalAbs(Ints(Cells(rows, i)))
  {
    if rows != [] {
      var n := |rows| - 1;
      WeightIsTotal(i, rows[..n]);
      assert Cells(rows, i)[..n] == Cells(rows[..n], i);
      if n >= 0 && i < |rows[n]| && rows[n][i].Int64? {
        Snoc(Ints(Cells(rows[..n], i)), rows[n][i].i);
      }
    }
  }

  lemma {:induction false} WeightIsCount(rows: seq<Row>)
    ensures Weight((row: Row) => 1, rows) == |rows|
  {
    if rows != [] {
      WeightIsCount(rows[..|rows| - 1]);
    }
  }

  /** A part of the rows weighs no more than all of them. */
  lemma {:induction false} PartWeighsLess(w: Row -> int, p: Row -> bool, rows: seq<Row>)
    requires forall row :: w(row) >= 0
    ensures 0 <= Weight(w, Select(p, rows)) <= Weight(w, rows)
  {
    if rows != [] {
      var before := rows[..|rows| - 1];
      PartWeighsLess(w, p, before);
      Snoc(Select(p, before), rows[|rows| - 1]);
    }
  }
}
