/** An index answers a lookup with the rows that a filter over the scan would keep. */
module IndexedLookups {
  import opened BTreeIndexes
  import opened Catalogs
  import opened Engine
  import opened IndexKeys
  import opened Invariants
  import opened Plans
  import opened Schemas
  import opened Seqs
  import opened TableStores
  import opened Values
  import Lex

  function RowsWithKey(rows: seq<Row>, c: nat, key: Lex.Key): seq<Row> {
    Select((row: Row) => IdKey(row, c) == Some(key), rows)
  }

  predicate KeyInRange(row: Row, c: nat, start: Lex.Key, end: Lex.Key) {
    IdKey(row, c).Some? && InRange(IdKey(row, c).value, start, end)
  }

  function RowsInRange(rows: seq<Row>, c: nat, start: Lex.Key, end: Lex.Key): seq<Row> {
    Select((row: Row) => KeyInRange(row, c, start, end), rows)
  }

  /** Fetching the postings of a key gives the rows with that key, in the order of the scan; postings
      of rows no longer stored do no harm. */
  lemma PointLookupRows(index: IndexMap, rows: RowState, t: TableId, c: nat, key: Lex.Key)
    requires IndexAgrees(index, rows, t, c) && IdsGivenOut(rows)
    ensures Fetch(rows.data, t, Postings(index, key)) == RowsWithKey(TableRows(rows, t), c, key)
  {
    var ids, p := Postings(index, key), (row: Row) => IdKey(row, c) == Some(key);
    var stored, found := Select(IsStored(rows.data, t), ids), Select(StoredWhere(rows.data, t, p), TableRids(rows, t));
    assert PostingsAgree(ids, rows, t, c, key);
    RidsMembers(rows.data, t, rows.next);
    SelectAscending(IsStored(rows.data, t), ids);
    SelectAscending(StoredWhere(rows.data, t, p), TableRids(rows, t));
    AscendingIsUnique(stored, found);
    FetchPresent(rows.data, t, ids);
    FetchSelect(rows.data, t, TableRids(rows, t), p);
  }

  lemma AscendingIsDistinct(s: seq<nat>)
    requires Ascending(s)
    ensures Distinct(s)
  {
  }

  lemma DistinctConcat<T(!new)>(a: seq<T>, b: seq<T>)
    requires Distinct(a) && Distinct(b) && forall x :: x in a ==> x !in b
    ensures Distinct(a + b)
  {
    var s := a + b;
    forall i, j | 0 <= i < j < |s| ensures s[i] != s[j] {
      if i < |a| && j >= |a| {
        assert s[i] in a && s[j] in b;
      }
    }
  }

  /** No stored row is posted under two keys of a range. */
  lemma {:induction false} RangePostingsDistinct(index: IndexMap, rows: RowState, t: TableId, c: nat,
                                                 keys: seq<Lex.Key>)
    requires IndexAgrees(index, rows, t, c) && Lex.Increasing(keys)
    ensures Distinct(Select(IsStored(rows.data, t), ConcatPostings(index, keys)))
  {
    if keys != [] {
      var front, key := keys[..|keys| - 1], keys[|keys| - 1];
      var ids := Postings(index, key);
      RangePostingsDistinct(index, rows, t, c, front);
      assert PostingsAgree(ids, rows, t, c, key);
      SelectAscending(IsStored(rows.data, t), ids);
      AscendingIsDistinct(Select(IsStored(rows.data, t), ids));
      SelectConcat(IsStored(rows.data, t), ConcatPostings(index, front), ids);
      forall rid | rid in Select(IsStored(rows.data, t), ConcatPostings(index, front))
        ensures rid !in Select(IsStored(rows.data, t), ids)
      {
        PostedInFront(index, rows, t, c, front, rid);
        var k :| k in front && IdKey(rows.data[(t, rid)], c) == Some(k);
        var i :| 0 <= i < |front| && front[i] == k;
        Lex.LtIsStrict(keys[i], key);
      }
      DistinctConcat(Select(IsStored(rows.data, t), ConcatPostings(index, front)), Select(IsStored(rows.data, t), ids));
    }
  }

  lemma PostedInFront(index: IndexMap, rows: RowState, t: TableId, c: nat, keys: seq<Lex.Key>, rid: RowId)
    requires IndexAgrees(index, rows, t, c) && rid in ConcatPostings(index, keys) && (t, rid) in rows.data
    ensures exists k :: k in keys && IdKey(rows.data[(t, rid)], c) == Some(k)
  {
    ConcatPostingsMembers(index, keys);
    var k :| k in keys && rid in Postings(index, k);
    assert PostingsAgree(Postings(index, k), rows, t, c, k);
  }

  lemma RangeRidsMembers(index: IndexMap, rows: RowState, t: TableId, c: nat, start: Lex.Key, end: Lex.Key)
    requires IndexAgrees(index, rows, t, c) && IdsGivenOut(rows)
    ensures
      var p := (row: Row) => KeyInRange(row, c, start, end);
      forall rid :: rid in Select(IsStored(rows.data, t), RangeIds(index, start, end))
        <==> rid in Select(StoredWhere(rows.data, t, p), TableRids(rows, t))
  {
    RangeMembers(index, start, end);
    RidsMembers(rows.data, t, rows.next);
    var p := (row: Row) => KeyInRange(row, c, start, end);
    forall rid | (t, rid) in rows.data
      ensures rid in RangeIds(index, start, end) <==> p(rows.data[(t, rid)])
    {
      forall k ensures rid in Postings(index, k) <==> IdKey(rows.data[(t, rid)], c) == Some(k) {
        assert PostingsAgree(Postings(index, k), rows, t, c, k);
      }
    }
  }

  /** Fetching a range gives the rows with a key in the range, each as often as the scan does. */
  lemma RangeLookupRows(index: IndexMap, rows: RowState, t: TableId, c: nat, start: Lex.Key, end: Lex.Key)
    requires IndexAgrees(index, rows, t, c) && IdsGivenOut(rows)
    ensures multiset(Fetch(rows.data, t, RangeIds(index, start, end)))
         == multiset(RowsInRange(TableRows(rows, t), c, start, end))
  {
    var p := (row: Row) => KeyInRange(row, c, start, end);
    var stored := Select(IsStored(rows.data, t), RangeIds(index, start, end));
    var found := Select(StoredWhere(rows.data, t, p), TableRids(rows, t));
    RangePostingsDistinct(index, rows, t, c, Lex.Sorted(KeysInRange(index, start, end)));
    RidsMembers(rows.data, t, rows.next);
    AscendingIsDistinct(TableRids(rows, t));
    SelectDistinct(StoredWhere(rows.data, t, p), TableRids(rows, t));
    RangeRidsMembers(index, rows, t, c, start, end);
    DistinctBag(stored, found);
    FetchBag(rows.data, t, stored, found);
    FetchPresent(rows.data, t, RangeIds(index, start, end));
    FetchSelect(rows.data, t, TableRids(rows, t), p);
  }

  // ----- the order of a range

  /** All rows have keys, and each key is at most the next. */
  ghost predicate KeysAscend(rows: seq<Row>, c: nat) {
    && (forall row :: row in rows ==> IdKey(row, c).Some?)
    && forall p, q :: 0 <= p < q < |rows| && IdKey(rows[p], c).Some? && IdKey(rows[q], c).Some? ==>
         Lex.Le(IdKey(rows[p], c).value, IdKey(rows[q], c).value)
  }

  predicate KeyAmong(row: Row, c: nat, keys: seq<Lex.Key>) {
    IdKey(row, c).Some? && IdKey(row, c).value in keys
  }

  lemma OneMoreKey(a: seq<Row>, b: seq<Row>, c: nat, keys: seq<Lex.Key>, key: Lex.Key)
    requires Lex.Increasing(keys + [key]) && KeysAscend(a, c)
    requires forall row :: row in a ==> KeyAmong(row, c, keys)
    requires forall row :: row in b ==> IdKey(row, c) == Some(key)
    ensures KeysAscend(a + b, c) && forall row :: row in a + b ==> KeyAmong(row, c, keys + [key])
  {
    forall p, q | 0 <= p < q < |a + b|
      ensures IdKey((a + b)[p], c).Some? && IdKey((a + b)[q], c).Some?
      ensures Lex.Le(IdKey((a + b)[p], c).value, IdKey((a + b)[q], c).value)
    {
      if p < |a| && q >= |a| {
        assert a[p] in a && b[q - |a|] in b;
        var i :| 0 <= i < |keys| && keys[i] == IdKey(a[p], c).value;
        assert (keys + [key])[i] == keys[i] && (keys + [key])[|keys|] == key;
      } else if p >= |a| {
        assert b[p - |a|] in b && b[q - |a|] in b;
      } else {
        assert a[p] in a && a[q] in a;
      }
    }
  }

  lemma OtherKeys(a: seq<Row>, c: nat, keys: seq<Lex.Key>, key: Lex.Key)
    requires (forall row :: row in a ==> KeyAmong(row, c, keys)) && key !in keys
    ensures RowsWithKey(a, c, key) == []
  {
    NonEmptyHasMember(RowsWithKey(a, c, key));
  }

  lemma ItsKey(rows: seq<Row>, c: nat, key: Lex.Key)
    ensures RowsWithKey(RowsWithKey(rows, c, key), c, key) == RowsWithKey(rows, c, key)
    ensures forall k :: k != key ==> RowsWithKey(RowsWithKey(rows, c, key), c, k) == []
  {
    var b := RowsWithKey(rows, c, key);
    SelectAll((row: Row) => IdKey(row, c) == Some(key), b);
    forall k | k != key ensures RowsWithKey(b, c, k) == [] {
      NonEmptyHasMember(RowsWithKey(b, c, k));
    }
  }

  /** The rows with one of the keys, key by key, those of one key as they stand among all rows. */
  ghost predicate ByKey(found: seq<Row>, rows: seq<Row>, c: nat, keys: seq<Lex.Key>) {
    && KeysAscend(found, c) && (forall row :: row in found ==> KeyAmong(row, c, keys))
    && forall k :: k in keys ==> RowsWithKey(found, c, k) == RowsWithKey(rows, c, k)
  }

  lemma KeyOfBoth(a: seq<Row>, b: seq<Row>, c: nat, key: Lex.Key)
    ensures RowsWithKey(a + b, c, key) == RowsWithKey(a, c, key) + RowsWithKey(b, c, key)
  {
    SelectConcat((row: Row) => IdKey(row, c) == Some(key), a, b);
  }

  lemma ByOneMoreKey(found: seq<Row>, rows: seq<Row>, c: nat, keys: seq<Lex.Key>, key: Lex.Key)
    requires ByKey(found, rows, c, keys) && Lex.Increasing(keys + [key])
    ensures ByKey(found + RowsWithKey(rows, c, key), rows, c, keys + [key])
  {
    var b := RowsWithKey(rows, c, key);
    OneMoreKey(found, b, c, keys, key);
    ItsKey(rows, c, key);
    forall i | 0 <= i < |keys| ensures keys[i] != key {
      assert (keys + [key])[i] == keys[i] && (keys + [key])[|keys|] == key;
      Lex.LtIsStrict(keys[i], key);
    }
    forall k | k in keys + [key] ensures RowsWithKey(found + b, c, k) == RowsWithKey(rows, c, k) {
      KeyOfBoth(found, b, c, k);
      if k == key {
        OtherKeys(found, c, keys, key);
        assert [] + b == b;
      } else {
        assert RowsWithKey(found, c, k) + [] == RowsWithKey(found, c, k);
      }
    }
  }

  lemma {:induction false} RangeRowsAscend(index: IndexMap, rows: RowState, t: TableId, c: nat, keys: seq<Lex.Key>)
    requires IndexAgrees(index, rows, t, c) && IdsGivenOut(rows) && Lex.Increasing(keys)
    ensures ByKey(Fetch(rows.data, t, ConcatPostings(index, keys)), TableRows(rows, t), c, keys)
  {
    if keys != [] {
      var front, key := keys[..|keys| - 1], keys[|keys| - 1];
      RangeRowsAscend(index, rows, t, c, front);
      PointLookupRows(index, rows, t, c, key);
      FetchConcat(rows.data, t, ConcatPostings(index, front), Postings(index, key));
      assert keys == front + [key];
      ByOneMoreKey(Fetch(rows.data, t, ConcatPostings(index, front)), TableRows(rows, t), c, front, key);
    }
  }

  /** A range lookup returns its rows in the order of their keys, and those of one key as the scan has them. */
  lemma RangeInKeyOrder(db: Db, t: TableId, low: Value, high: Value)
    requires RowInv(db) && (t, ID) in db.indexes
    requires LookupRows(db, t, db.indexes[(t, ID)], RangeInclusive(low, high)).Success?
    ensures
      var found := LookupRows(db, t, db.indexes[(t, ID)], RangeInclusive(low, high)).value;
      var c := ColumnIndex(db.catalog.byId[t].schema, ID).value;
      && KeysAscend(found, c)
      && forall k :: InRange(k, FromValue(low).value, FromValue(high).value) ==>
           RowsWithKey(found, c, k) == RowsWithKey(TableRows(db.rows, t), c, k)
  {
    assert TableIndexAgrees(db, t);
    var index, c := db.indexes[(t, ID)], ColumnIndex(db.catalog.byId[t].schema, ID).value;
    var start, end := FromValue(low).value, FromValue(high).value;
    var keys := Lex.Sorted(KeysInRange(index, start, end));
    RangeRowsAscend(index, db.rows, t, c, keys);
    forall k | InRange(k, start, end) && k !in keys
      ensures RowsWithKey(Fetch(db.rows.data, t, RangeIds(index, start, end)), c, k) == []
      ensures RowsWithKey(TableRows(db.rows, t), c, k) == []
    {
      OtherKeys(Fetch(db.rows.data, t, RangeIds(index, start, end)), c, keys, k);
      PointLookupRows(index, db.rows, t, c, k);
    }
  }

  lemma IdsAscendByKey(found: seq<Row>, c: nat, a: i64, b: i64)
    requires (a < 0) == (b < 0) && a <= b && KeysAscend(found, c)
    requires forall row: Row :: row in found ==> c < |row| && row[c].Int64? && a <= row[c].i <= b
    ensures forall p, q :: 0 <= p < q < |found| ==> IdAt(found[p], c) <= IdAt(found[q], c)
  {
    forall p, q | 0 <= p < q < |found| ensures IdAt(found[p], c) <= IdAt(found[q], c) {
      assert found[p] in found && found[q] in found;
      IntKeyOrder(found[p][c].i, found[q][c].i);
      IntKeyInjective(found[p][c].i, found[q][c].i);
    }
  }

  lemma BetweenBounds(rows: seq<Row>, found: seq<Row>, c: nat, a: i64, b: i64)
    requires (a < 0) == (b < 0) && a <= b && IdsLike(rows, c, Int64(a))
    requires multiset(found) == multiset(RowsInRange(rows, c, IntKey(a), IntKey(b)))
    ensures forall row: Row :: row in found ==> c < |row| && row[c].Int64? && a <= row[c].i <= b
  {
    forall row: Row | row in found ensures c < |row| && row[c].Int64? && a <= row[c].i <= b {
      assert row in multiset(found);
      assert row in RowsInRange(rows, c, IntKey(a), IntKey(b));
      SameSignRangeIsExact(a, b, row[c].i);
    }
  }

  /** Between integer bounds of one sign, over ids that are integers, that is ascending order of the ids. */
  lemma IntegerRangeAscends(db: Db, t: TableId, a: i64, b: i64)
    requires RowInv(db) && (t, ID) in db.indexes && RangeSafe(Int64(a), Int64(b))
    requires IdsLike(TableRows(db.rows, t), ColumnIndex(db.catalog.byId[t].schema, ID).value, Int64(a))
    ensures
      var found := LookupRows(db, t, db.indexes[(t, ID)], RangeInclusive(Int64(a), Int64(b)));
      var c := ColumnIndex(db.catalog.byId[t].schema, ID).value;
      && found.Success?
      && (forall row: Row :: row in found.value ==> c < |row| && row[c].Int64? && a <= row[c].i <= b)
      && forall p, q :: 0 <= p < q < |found.value| ==> IdAt(found.value[p], c) <= IdAt(found.value[q], c)
  {
    assert TableIndexAgrees(db, t);
    var c := ColumnIndex(db.catalog.byId[t].schema, ID).value;
    SafeBoundsInOrder(Int64(a), Int64(b));
    RangeInKeyOrder(db, t, Int64(a), Int64(b));
    var found := LookupRows(db, t, db.indexes[(t, ID)], RangeInclusive(Int64(a), Int64(b))).value;
    RangeLookupRows(db.indexes[(t, ID)], db.rows, t, c, IntKey(a), IntKey(b));
    BetweenBounds(TableRows(db.rows, t), found, c, a, b);
    IdsAscendByKey(found, c, a, b);
  }

  function IdAt(row: Row, c: nat): int {
    if c < |row| && row[c].Int64? then row[c].i else 0
  }

  // ----- lookups against predicates

  /** No stored id is another value than `v` with the key of `v`. */
  predicate NoKeyCollision(rows: seq<Row>, c: nat, v: Value) {
    forall row: Row :: row in rows && c < |row| && FromValue(row[c]) == FromValue(v) ==> row[c] == v
  }

  /** Every id that has a key is of the type of `v`. */
  predicate IdsLike(rows: seq<Row>, c: nat, v: Value) {
    forall row: Row :: row in rows && c < |row| && FromValue(row[c]).Success? ==> SameType(row[c], v)
  }

  lemma OneTypeNoCollision(rows: seq<Row>, c: nat, v: Value)
    requires IdsLike(rows, c, v) && FromValue(v).Success?
    ensures NoKeyCollision(rows, c, v)
  {
    forall row: Row | row in rows && c < |row| && FromValue(row[c]) == FromValue(v) ensures row[c] == v {
      FromValueInjective(row[c], v);
    }
  }

  /** Rows with the key of `v` are the rows whose id is `v` exactly when no stored id collides with it. */
  lemma KeyMeansValueIff(rows: seq<Row>, schema: Schema, v: Value)
    requires ColumnIndex(schema, ID).Some? && FromValue(v).Success?
    ensures var c := ColumnIndex(schema, ID).value;
      (RowsWithKey(rows, c, FromValue(v).value) == FilterRows(Cmp(ID, Eq, v), schema, rows)
       <==> NoKeyCollision(rows, c, v))
  {
    var c, key := ColumnIndex(schema, ID).value, FromValue(v).value;
    var p, q := (row: Row) => EvalPredicate(row, Cmp(ID, Eq, v), schema), (row: Row) => IdKey(row, c) == Some(key);
    SelectSameLength(p, q, rows);
    if RowsWithKey(rows, c, key) == FilterRows(Cmp(ID, Eq, v), schema, rows) {
      forall row: Row | row in rows && c < |row| && FromValue(row[c]) == FromValue(v) ensures row[c] == v {
        assert q(row) && p(row);
      }
    }
    if NoKeyCollision(rows, c, v) {
      SelectAgrees(p, q, rows);
    }
  }

  /** Bounds between which byte order is value order: integers of one sign, or strings, in order. */
  predicate RangeSafe(low: Value, high: Value) {
    match (low, high)
    case (Int64(a), Int64(b)) => (a < 0) == (b < 0) && a <= b
    case (Str(a), Str(b)) => Lex.Le(a, b)
    case _ => false
  }

  lemma RangeKeysMeanRange(row: Row, c: nat, low: Value, high: Value)
    requires RangeSafe(low, high) && (c < |row| && FromValue(row[c]).Success? ==> SameType(row[c], low))
    ensures KeyInRange(row, c, FromValue(low).value, FromValue(high).value)
       <==> Denotes(RangeInclusive(low, high), Cell(row, c))
  {
    if c < |row| && row[c].Int64? && low.Int64? {
      SameSignRangeIsExact(low.i, high.i, row[c].i);
    } else if c < |row| && row[c].Str? && low.Str? {
      TextBounds(low.s, row[c].s);
      TextBounds(row[c].s, high.s);
    }
  }

  lemma TextBounds(a: Utf8, b: Utf8)
    ensures Lex.Le(a, b) <==> CmpText(a, b) != Greater
  {
    Lex.LtIsTotal(a, b);
    if Lex.Lt(a, b) { Lex.LtIsStrict(a, b); }
    if Lex.Lt(b, a) { Lex.LtIsStrict(b, a); }
  }

  lemma SafeBoundsInOrder(low: Value, high: Value)
    requires RangeSafe(low, high)
    ensures FromValue(low).Success? && FromValue(high).Success? && !Lex.Lt(FromValue(high).value, FromValue(low).value)
  {
    if low.Int64? {
      IntKeyOrder(high.i, low.i);
    } else if Lex.Lt(low.s, high.s) {
      Lex.LtIsStrict(low.s, high.s);
    }
  }

  /** A range that the index can answer: both bounds have keys, in order, and between them lie the keys of
      exactly those stored ids that the comparisons select. */
  predicate RangeFits(rows: seq<Row>, c: nat, low: Value, high: Value) {
    && FromValue(low).Success? && FromValue(high).Success?
    && !Lex.Lt(FromValue(high).value, FromValue(low).value)
    && forall row :: row in rows ==>
         (KeyInRange(row, c, FromValue(low).value, FromValue(high).value)
          <==> Denotes(RangeInclusive(low, high), Cell(row, c)))
  }

  /** When the index may stand in for the filter, given the rows of the table. */
  predicate LookupSafe(lookup: IdLookup, rows: seq<Row>, c: nat) {
    match lookup
    case Point(v) => FromValue(v).Success? && NoKeyCollision(rows, c, v)
    case RangeInclusive(low, high) => RangeFits(rows, c, low, high)
  }

  /** On ids of their own type, bounds in byte order fit every table. */
  lemma SafeBoundsFit(rows: seq<Row>, c: nat, low: Value, high: Value)
    requires RangeSafe(low, high) && IdsLike(rows, c, low)
    ensures RangeFits(rows, c, low, high)
  {
    SafeBoundsInOrder(low, high);
    forall row | row in rows
      ensures KeyInRange(row, c, FromValue(low).value, FromValue(high).value)
         <==> Denotes(RangeInclusive(low, high), Cell(row, c))
    {
      RangeKeysMeanRange(row, c, low, high);
    }
  }

  /** The same for bounds and ids of one type, case by case: integer bounds of one sign and strings must be
      in order; integer bounds that span the sign must be the wrong way round, with no stored id at or
      beyond either; and boolean bounds, which select nothing, must be in order with no stored id between. */
  predicate OneTypeRange(rows: seq<Row>, c: nat, low: Value, high: Value) {
    match (low, high)
    case (Int64(a), Int64(b)) =>
      if (a < 0) == (b < 0) then a <= b
      else b < 0 && forall row: Row :: row in rows && c < |row| && row[c].Int64? ==> b < row[c].i < a
    case (Str(a), Str(b)) => Lex.Le(a, b)
    case (Bool(p), Bool(q)) =>
      && (p ==> q)
      && forall row: Row :: row in rows && c < |row| && row[c].Bool? ==> !((p ==> row[c].b) && (row[c].b ==> q))
    case _ => false
  }

  lemma OneTypeRangeIff(rows: seq<Row>, c: nat, low: Value, high: Value)
    requires SameType(low, high) && IdsLike(rows, c, low)
    ensures RangeFits(rows, c, low, high) <==> OneTypeRange(rows, c, low, high)
  {
    if RangeSafe(low, high) {
      SafeBoundsFit(rows, c, low, high);
    } else {
      match (low, high) {
        case (Int64(a), Int64(b)) => IntegerRangeIff(rows, c, a, b);
        case (Str(a), Str(b)) => Lex.LtIsTotal(a, b);
        case (Bool(p), Bool(q)) => BooleanRangeIff(rows, c, p, q);
      }
    }
  }

  /** Integer bounds that are not safe: out of order, or the ends of the keys from `a` up and from `b` down. */
  lemma IntegerRangeIff(rows: seq<Row>, c: nat, a: i64, b: i64)
    requires IdsLike(rows, c, Int64(a)) && !((a < 0) == (b < 0) && a <= b)
    ensures RangeFits(rows, c, Int64(a), Int64(b)) <==> OneTypeRange(rows, c, Int64(a), Int64(b))
  {
    IntKeyOrder(b, a);
    if b < 0 <= a {
      forall row: Row | row in rows
        ensures KeyInRange(row, c, IntKey(a), IntKey(b))
           <==> c < |row| && row[c].Int64? && (row[c].i >= a || row[c].i <= b)
      {
        if c < |row| && row[c].Int64? {
          MixedSignRange(a, b, row[c].i);
        }
      }
    }
  }

  lemma BooleanKeys(x: bool, y: bool)
    ensures var (k, l) := (FromValue(Bool(x)), FromValue(Bool(y)));
      k.Success? && l.Success? && (Lex.Le(k.value, l.value) <==> (x ==> y)) && (Lex.Lt(k.value, l.value) <==> !x && y)
  {
    var k, l := FromValue(Bool(x)).value, FromValue(Bool(y)).value;
    assert k[1..] == [] && l[1..] == [];
  }

  lemma BooleanRangeIff(rows: seq<Row>, c: nat, p: bool, q: bool)
    requires IdsLike(rows, c, Bool(p))
    ensures RangeFits(rows, c, Bool(p), Bool(q)) <==> OneTypeRange(rows, c, Bool(p), Bool(q))
  {
    BooleanKeys(q, p);
    forall row: Row | row in rows
      ensures KeyInRange(row, c, FromValue(Bool(p)).value, FromValue(Bool(q)).value)
         <==> c < |row| && row[c].Bool? && (p ==> row[c].b) && (row[c].b ==> q)
    {
      if c < |row| && row[c].Bool? {
        BooleanKeys(p, row[c].b);
        BooleanKeys(row[c].b, q);
      }
    }
  }

  /** A point lookup is the filter exactly when its literal has a key that no other stored id shares; a
      literal without a key, such as Null, makes it fail. */
  lemma PointIsFilter(db: Db, t: TableId, v: Value)
    requires RowInv(db) && (t, ID) in db.indexes
    ensures var schema := db.catalog.byId[t].schema; var rows := TableRows(db.rows, t);
      (LookupRows(db, t, db.indexes[(t, ID)], Point(v)) == Success(FilterRows(Cmp(ID, Eq, v), schema, rows))
       <==> LookupSafe(Point(v), rows, ColumnIndex(schema, ID).value))
  {
    assert TableIndexAgrees(db, t);
    if FromValue(v).Success? {
      var schema := db.catalog.byId[t].schema;
      PointLookupRows(db.indexes[(t, ID)], db.rows, t, ColumnIndex(schema, ID).value, FromValue(v).value);
      KeyMeansValueIff(TableRows(db.rows, t), schema, v);
    }
  }

  lemma SameBagSelects<T(!new)>(p: T -> bool, q: T -> bool, s: seq<T>)
    ensures multiset(Select(p, s)) == multiset(Select(q, s)) <==> forall x :: x in s ==> p(x) == q(x)
  {
    BagSelect(p, s);
    BagSelect(q, s);
    if multiset(Select(p, s)) == multiset(Select(q, s)) {
      forall x | x in s ensures p(x) == q(x) {
        assert x in multiset(s);
        assert multiset(Select(p, s))[x] == multiset(Select(q, s))[x];
      }
    } else if forall x :: x in s ==> p(x) == q(x) {
      SelectAgrees(p, q, s);
    }
  }

  /** The rows with a key in the range are those of the predicate exactly when the range fits. */
  lemma RangeKeysIff(rows: seq<Row>, schema: Schema, pred: FilterExpr, low: Value, high: Value)
    requires PredicateToLookup(pred, ID) == Some(RangeInclusive(low, high)) && ColumnIndex(schema, ID).Some?
    requires FromValue(low).Success? && FromValue(high).Success?
    requires !Lex.Lt(FromValue(high).value, FromValue(low).value)
    ensures var c := ColumnIndex(schema, ID).value;
      (multiset(RowsInRange(rows, c, FromValue(low).value, FromValue(high).value))
       == multiset(FilterRows(pred, schema, rows))
       <==> RangeFits(rows, c, low, high))
  {
    var c, start, end := ColumnIndex(schema, ID).value, FromValue(low).value, FromValue(high).value;
    var p, q := (row: Row) => KeyInRange(row, c, start, end), (row: Row) => EvalPredicate(row, pred, schema);
    SameBagSelects(p, q, rows);
    forall row | row in rows
      ensures EvalPredicate(row, pred, schema) == Denotes(RangeInclusive(low, high), Cell(row, c))
    {
      LookupDenotesPredicate(pred, ID, row, schema);
    }
  }

  /** A range lookup succeeds with the rows of the filter exactly when the range fits the stored ids: else
      it fails, aborts, or has a row too many or too few. */
  lemma RangeIsFilter(db: Db, t: TableId, pred: FilterExpr, low: Value, high: Value)
    requires RowInv(db) && (t, ID) in db.indexes && PredicateToLookup(pred, ID) == Some(RangeInclusive(low, high))
    ensures
      var schema, rows := db.catalog.byId[t].schema, TableRows(db.rows, t);
      var r := LookupRows(db, t, db.indexes[(t, ID)], RangeInclusive(low, high));
      (r.Success? && multiset(r.value) == multiset(FilterRows(pred, schema, rows))
       <==> LookupSafe(RangeInclusive(low, high), rows, ColumnIndex(schema, ID).value))
  {
    assert TableIndexAgrees(db, t);
    var schema, rows := db.catalog.byId[t].schema, TableRows(db.rows, t);
    var c := ColumnIndex(schema, ID).value;
    if FromValue(low).Success? && FromValue(high).Success? && !Lex.Lt(FromValue(high).value, FromValue(low).value) {
      RangeLookupRows(db.indexes[(t, ID)], db.rows, t, c, FromValue(low).value, FromValue(high).value);
      RangeKeysIff(rows, schema, pred, low, high);
    }
  }

  /** An index lookup that stands in for the filter: the same rows, for a point also in the same order. */
  ghost predicate AnswersFilter(db: Db, t: TableId, pred: FilterExpr, schema: Schema, lookup: IdLookup)
    requires (t, ID) in db.indexes
  {
    var answer := LookupRows(db, t, db.indexes[(t, ID)], lookup);
    var filtered := FilterRows(pred, schema, TableRows(db.rows, t));
    answer.Success? && multiset(answer.value) == multiset(filtered) && (lookup.Point? ==> answer.value == filtered)
  }

  lemma PointPredicate(pred: FilterExpr, v: Value)
    requires PredicateToLookup(pred, ID) == Some(Point(v))
    ensures pred == Cmp(ID, Eq, v)
  {
  }

  /** After any run of statements, failing INSERTs and document deletes, `id = v` read from the index gives
      the rows and the order of filtering the scan, and a range the same rows, exactly when the lookup is
      safe on the stored ids. */
  lemma IndexAgreesWithScan(cfg: Config, catalog: CatalogState, events: seq<Event>, t: TableId, pred: FilterExpr)
    requires Consistent(catalog)
    requires var db := RunEvents(cfg, NewSession(catalog), events);
      (t, ID) in db.indexes && PredicateToLookup(pred, ID).Some?
    ensures
      var db := RunEvents(cfg, NewSession(catalog), events);
      var lookup := PredicateToLookup(pred, ID).value;
      && t in db.catalog.byId && ColumnIndex(db.catalog.byId[t].schema, ID).Some?
      && (AnswersFilter(db, t, pred, db.catalog.byId[t].schema, lookup)
          <==> LookupSafe(lookup, TableRows(db.rows, t), ColumnIndex(db.catalog.byId[t].schema, ID).value))
  {
    var db := RunEvents(cfg, NewSession(catalog), events);
    EmptySessionRowInv(catalog);
    RunEventsKeepsRowInv(cfg, NewSession(catalog), events);
    assert TableIndexAgrees(db, t);
    match PredicateToLookup(pred, ID).value
    case Point(v) =>
      PointPredicate(pred, v);
      PointIsFilter(db, t, v);
    case RangeInclusive(low, high) => RangeIsFilter(db, t, pred, low, high);
  }

  lemma EmptySessionRowInv(catalog: CatalogState)
    requires Consistent(catalog)
    ensures RowInv(NewSession(catalog))
  {
  }
}
