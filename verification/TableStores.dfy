/** The in-memory row store: (table id, row id) -> row, walked in row-id order within a table. */
module TableStores {
  import opened Seqs
  import opened Values

  type RowMap = map<(TableId, RowId), Row>

  datatype RowState = RowState(next: RowId, data: RowMap)

  const NO_ROWS := RowState(0, map[])

  /** No stored row has an id that is still to be given out. */
  ghost predicate IdsGivenOut(s: RowState) {
    forall k :: k in s.data ==> k.1 < s.next
  }

  function InsertRow(s: RowState, t: TableId, row: Row): RowState {
    RowState(s.next + 1, s.data[(t, s.next) := row])
  }

  function DeleteRow(s: RowState, t: TableId, rid: RowId): RowState {
    s.(data := s.data - {(t, rid)})
  }

  function DropRows(s: RowState, t: TableId): RowState {
    s.(data := map k | k in s.data && k.0 != t :: s.data[k])
  }

  /** The ids below `n` that are present in table `t`, ascending: the range walk of the B-tree map. */
  function Rids(data: RowMap, t: TableId, n: nat): seq<RowId> {
    if n == 0 then []
    else if (t, n - 1) in data then Rids(data, t, n - 1) + [n - 1]
    else Rids(data, t, n - 1)
  }

  /** The rows found under `rids`; ids that are not in the store are skipped. */
  function Fetch(data: RowMap, t: TableId, rids: seq<RowId>): seq<Row> {
    if rids == [] then []
    else if (t, rids[|rids| - 1]) in data then Fetch(data, t, rids[..|rids| - 1]) + [data[(t, rids[|rids| - 1])]]
    else Fetch(data, t, rids[..|rids| - 1])
  }

  function FetchPairs(data: RowMap, t: TableId, rids: seq<RowId>): seq<(RowId, Row)> {
    if rids == [] then []
    else if (t, rids[|rids| - 1]) in data then
      FetchPairs(data, t, rids[..|rids| - 1]) + [(rids[|rids| - 1], data[(t, rids[|rids| - 1])])]
    else FetchPairs(data, t, rids[..|rids| - 1])
  }

  function TableRids(s: RowState, t: TableId): seq<RowId> {
    Rids(s.data, t, s.next)
  }

  function TableRows(s: RowState, t: TableId): seq<Row> {
    Fetch(s.data, t, TableRids(s, t))
  }

  function ScanPairs(s: RowState, t: TableId): seq<(RowId, Row)> {
    FetchPairs(s.data, t, TableRids(s, t))
  }

  ghost predicate AscendingIds(pairs: seq<(RowId, Row)>) {
    forall i, j :: 0 <= i < j < |pairs| ==> pairs[i].0 < pairs[j].0
  }

  lemma AscendingIdsSnoc(pairs: seq<(RowId, Row)>, p: (RowId, Row))
    requires AscendingIds(pairs) && forall q :: q in pairs ==> q.0 < p.0
    ensures AscendingIds(pairs + [p])
  {
    assert forall i :: 0 <= i < |pairs| ==> pairs[i] in pairs;
  }

  function SecondOf(pairs: seq<(RowId, Row)>): seq<Row> {
    Map((p: (RowId, Row)) => p.1, pairs)
  }

  ghost predicate AgreeOn(d: RowMap, e: RowMap, t: TableId) {
    forall r :: ((t, r) in d <==> (t, r) in e) && ((t, r) in d ==> d[(t, r)] == e[(t, r)])
  }

  lemma {:induction false} RidsMembers(data: RowMap, t: TableId, n: nat)
    ensures Ascending(Rids(data, t, n))
    ensures forall r :: r in Rids(data, t, n) <==> r < n && (t, r) in data
  {
    if n > 0 {
      RidsMembers(data, t, n - 1);
      AscendingSnoc(Rids(data, t, n - 1), n - 1);
    }
  }

  lemma {:induction false} RidsFrame(d: RowMap, e: RowMap, t: TableId, n: nat)
    requires forall r :: r < n ==> ((t, r) in d <==> (t, r) in e)
    ensures Rids(d, t, n) == Rids(e, t, n)
  {
    if n > 0 {
      RidsFrame(d, e, t, n - 1);
    }
  }

  lemma {:induction false} FetchFrame(d: RowMap, e: RowMap, t: TableId, rids: seq<RowId>)
    requires forall r :: r in rids ==> ((t, r) in d <==> (t, r) in e) && ((t, r) in d ==> d[(t, r)] == e[(t, r)])
    ensures Fetch(d, t, rids) == Fetch(e, t, rids)
  {
    if rids != [] {
      FetchFrame(d, e, t, rids[..|rids| - 1]);
    }
  }

  lemma {:induction false} FetchPairsRows(data: RowMap, t: TableId, rids: seq<RowId>)
    ensures SecondOf(FetchPairs(data, t, rids)) == Fetch(data, t, rids)
  {
    if rids != [] {
      FetchPairsRows(data, t, rids[..|rids| - 1]);
    }
  }

  function IsStored(data: RowMap, t: TableId): RowId -> bool {
    (r: RowId) => (t, r) in data
  }

  function StoredWhere(data: RowMap, t: TableId, p: Row -> bool): RowId -> bool {
    (r: RowId) => (t, r) in data && p(data[(t, r)])
  }

  /** Fetching is a selection of present ids followed by a lookup of each. */
  lemma {:induction false} FetchConcat(data: RowMap, t: TableId, a: seq<RowId>, b: seq<RowId>)
    ensures Fetch(data, t, a + b) == Fetch(data, t, a) + Fetch(data, t, b)
  {
    if b == [] {
      assert a + b == a;
    } else {
      assert (a + b)[..|a + b| - 1] == a + b[..|b| - 1];
      FetchConcat(data, t, a, b[..|b| - 1]);
    }
  }

  lemma {:induction false} FetchPresent(data: RowMap, t: TableId, rids: seq<RowId>)
    ensures Fetch(data, t, rids) == Fetch(data, t, Select(IsStored(data, t), rids))
  {
    if rids != [] {
      FetchPresent(data, t, rids[..|rids| - 1]);
      var kept := Select(IsStored(data, t), rids[..|rids| - 1]);
      if (t, rids[|rids| - 1]) in data {
        Snoc(kept, rids[|rids| - 1]);
      }
    }
  }

  /** Filtering fetched rows is fetching filtered ids. */
  lemma {:induction false} FetchSelect(data: RowMap, t: TableId, rids: seq<RowId>, p: Row -> bool)
    requires forall r :: r in rids ==> (t, r) in data
    ensures Select(p, Fetch(data, t, rids)) == Fetch(data, t, Select(StoredWhere(data, t, p), rids))
  {
    if rids != [] {
      assert rids == rids[..|rids| - 1] + [rids[|rids| - 1]];
      FetchSelect(data, t, rids[..|rids| - 1], p);
      var kept := Select(StoredWhere(data, t, p), rids[..|rids| - 1]);
      var row := data[(t, rids[|rids| - 1])];
      Snoc(Fetch(data, t, rids[..|rids| - 1]), row);
      if p(row) {
        Snoc(kept, rids[|rids| - 1]);
      }
    }
  }

  lemma {:induction false} FetchIsMap(data: RowMap, t: TableId, rids: seq<RowId>)
    requires forall r :: r in rids ==> (t, r) in data
    ensures Fetch(data, t, rids) == Map(r => if (t, r) in data then data[(t, r)] else [], rids)
  {
    if rids != [] {
      assert rids == rids[..|rids| - 1] + [rids[|rids| - 1]];
      FetchIsMap(data, t, rids[..|rids| - 1]);
    }
  }

  /** Fetching permuted ids permutes the rows. */
  lemma FetchBag(data: RowMap, t: TableId, a: seq<RowId>, b: seq<RowId>)
    requires multiset(a) == multiset(b)
    requires forall r :: r in a ==> (t, r) in data
    ensures multiset(Fetch(data, t, a)) == multiset(Fetch(data, t, b))
  {
    forall r | r in b ensures (t, r) in data {
      assert r in multiset(b);
    }
    FetchIsMap(data, t, a);
    FetchIsMap(data, t, b);
    BagMapAgrees(r => if (t, r) in data then data[(t, r)] else [], a, b);
  }

  lemma TableFrame(s: RowState, s': RowState, t: TableId)
    requires IdsGivenOut(s) && s.next <= s'.next
    requires AgreeOn(s.data, s'.data, t)
    ensures TableRids(s', t) == TableRids(s, t)
    ensures TableRows(s', t) == TableRows(s, t)
  {
    RidsFrame(s.data, s'.data, t, s.next);
    RidsStop(s'.data, t, s.next, s'.next);
    FetchFrame(s.data, s'.data, t, TableRids(s, t));
  }

  lemma {:induction false} RidsStop(data: RowMap, t: TableId, n: nat, m: nat)
    requires n <= m && forall r :: n <= r < m ==> (t, r) !in data
    ensures Rids(data, t, m) == Rids(data, t, n)
  {
    if n < m {
      RidsStop(data, t, n, m - 1);
    }
  }

  lemma InsertIsLast(s: RowState, t: TableId, row: Row)
    requires IdsGivenOut(s)
    ensures var s' := InsertRow(s, t, row);
      TableRids(s', t) == TableRids(s, t) + [s.next] && TableRows(s', t) == TableRows(s, t) + [row]
  {
    var s' := InsertRow(s, t, row);
    var rids := TableRids(s, t);
    RidsMembers(s.data, t, s.next);
    RidsFrame(s.data, s'.data, t, s.next);
    FetchFrame(s.data, s'.data, t, rids);
    Snoc(rids, s.next);
  }

  /** An insert appends one row to its table and changes no other. */
  lemma InsertAppends(s: RowState, t: TableId, row: Row)
    requires IdsGivenOut(s)
    ensures
      var s' := InsertRow(s, t, row);
      && IdsGivenOut(s')
      && TableRids(s', t) == TableRids(s, t) + [s.next]
      && TableRows(s', t) == TableRows(s, t) + [row]
      && forall u :: u != t ==> TableRids(s', u) == TableRids(s, u) && TableRows(s', u) == TableRows(s, u)
  {
    var s' := InsertRow(s, t, row);
    InsertIsLast(s, t, row);
    forall u | u != t ensures TableRids(s', u) == TableRids(s, u) && TableRows(s', u) == TableRows(s, u) {
      TableFrame(s, s', u);
    }
  }

  /** Dropping a table empties it and changes no other. */
  lemma DropEmpties(s: RowState, t: TableId)
    requires IdsGivenOut(s)
    ensures
      var s' := DropRows(s, t);
      && IdsGivenOut(s')
      && TableRids(s', t) == [] && TableRows(s', t) == []
      && forall u :: u != t ==> TableRids(s', u) == TableRids(s, u) && TableRows(s', u) == TableRows(s, u)
  {
    var s' := DropRows(s, t);
    RidsStop(s'.data, t, 0, s'.next);
    forall u | u != t ensures TableRids(s', u) == TableRids(s, u) && TableRows(s', u) == TableRows(s, u) {
      TableFrame(s, s', u);
    }
  }

  /** A table whose ids never occur in the store reads as empty. */
  lemma UnusedTableIsEmpty(s: RowState, t: TableId)
    requires forall k :: k in s.data ==> k.0 != t
    ensures TableRids(s, t) == [] && TableRows(s, t) == []
  {
    RidsStop(s.data, t, 0, s.next);
  }

  class TableStore {
    var nextRowId: RowId
    var data: RowMap

    constructor ()
      ensures State() == NO_ROWS
    {
      nextRowId := 0;
      data := map[];
    }

    ghost function State(): RowState
      reads this
    {
      RowState(nextRowId, data)
    }

    method Insert(t: TableId, row: Row) returns (id: RowId)
      modifies this
      ensures id == old(nextRowId)
      ensures State() == InsertRow(old(State()), t, row)
    {
      id := nextRowId;
      nextRowId := nextRowId + 1;
      data := data[(t, id) := row];
    }

    method Get(t: TableId, rid: RowId) returns (row: Option<Row>)
      ensures row == if (t, rid) in data then Some(data[(t, rid)]) else None
    {
      if (t, rid) in data {
        row := Some(data[(t, rid)]);
      } else {
        row := None;
      }
    }

    method Delete(t: TableId, rid: RowId) returns (found: bool)
      modifies this
      ensures found == ((t, rid) in old(data))
      ensures State() == DeleteRow(old(State()), t, rid)
    {
      found := (t, rid) in data;
      data := data - {(t, rid)};
    }

    method Update(t: TableId, rid: RowId, row: Row) returns (found: bool)
      modifies this
      ensures found == ((t, rid) in old(data)) && nextRowId == old(nextRowId)
      ensures data == if found then old(data)[(t, rid) := row] else old(data)
    {
      found := (t, rid) in data;
      if found {
        data := data[(t, rid) := row];
      }
    }

    /** Every row of the table, once, in ascending order of row id. */
    method Scan(t: TableId) returns (pairs: seq<(RowId, Row)>)
      requires IdsGivenOut(State())
      ensures pairs == ScanPairs(State(), t)
      ensures forall i, j :: 0 <= i < j < |pairs| ==> pairs[i].0 < pairs[j].0
      ensures forall rid, row :: (rid, row) in pairs <==> (t, rid) in data && data[(t, rid)] == row
    {
      pairs := [];
      for rid := 0 to nextRowId
        invariant pairs == FetchPairs(data, t, Rids(data, t, rid))
        invariant forall i :: 0 <= i < |pairs| ==> pairs[i].0 < rid
        invariant forall i, j :: 0 <= i < j < |pairs| ==> pairs[i].0 < pairs[j].0
        invariant forall r, row :: (r, row) in pairs <==> r < rid && (t, r) in data && data[(t, r)] == row
      {
        if (t, rid) in data {
          Snoc(Rids(data, t, rid), rid);
          pairs := pairs + [(rid, data[(t, rid)])];
        }
      }
    }

    method DropTable(t: TableId)
      modifies this
      ensures State() == DropRows(old(State()), t)
    {
      var keys := set k | k in data && k.0 == t;
      while keys != {}
        invariant nextRowId == old(nextRowId)
        invariant forall k :: k in keys ==> k in old(data) && k.0 == t
        invariant data == map k | k in old(data) && (k.0 != t || k in keys) :: old(data)[k]
        decreases |keys|
      {
        var k :| k in keys;
        data := data - {k};
        keys := keys - {k};
      }
    }
  }
}
