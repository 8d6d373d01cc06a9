/** The B-tree index: byte key -> row ids in insertion order. */
module BTreeIndexes {
  import opened IndexKeys
  import opened Lex
  import opened Seqs
  import opened Values

  type IndexMap = map<Key, seq<RowId>>

  function Postings(m: IndexMap, key: Key): seq<RowId> {
    if key in m then m[key] else []
  }

  function AddPosting(m: IndexMap, key: Key, rid: RowId): IndexMap {
    m[key := Postings(m, key) + [rid]]
  }

  /** The list without its first `x`. */
  function RemoveFirst(s: seq<RowId>, x: RowId): seq<RowId> {
    if s == [] then [] else if s[0] == x then s[1..] else [s[0]] + RemoveFirst(s[1..], x)
  }

  /** Deleting a posting; a key whose list becomes empty goes too. */
  function RemovePosting(m: IndexMap, key: Key, rid: RowId): IndexMap {
    if rid !in Postings(m, key) then m
    else if RemoveFirst(m[key], rid) == [] then m - {key}
    else m[key := RemoveFirst(m[key], rid)]
  }

  ghost predicate NoEmptyList(m: IndexMap) {
    forall k :: k in m ==> m[k] != []
  }

  lemma {:induction false} RemoveFirstBag(s: seq<RowId>, x: RowId)
    requires x in s
    ensures multiset(RemoveFirst(s, x)) == multiset(s) - multiset{x}
    ensures |RemoveFirst(s, x)| == |s| - 1
  {
    assert s == [s[0]] + s[1..];
    if s[0] != x {
      RemoveFirstBag(s[1..], x);
    }
  }

  /** It is the first that goes. */
  lemma {:induction false} RemoveFirstAt(s: seq<RowId>, x: RowId, i: nat)
    requires i < |s| && s[i] == x && x !in s[..i]
    ensures RemoveFirst(s, x) == s[..i] + s[i + 1..]
  {
    if i > 0 {
      assert s[..i][0] == s[0] && s[1..][..i - 1] == s[..i][1..];
      RemoveFirstAt(s[1..], x, i - 1);
    }
  }

  lemma {:induction false} RemoveFirstUndoesAppend(s: seq<RowId>, x: RowId)
    requires x !in s
    ensures RemoveFirst(s + [x], x) == s
  {
    if s != [] {
      assert (s + [x])[1..] == s[1..] + [x];
      RemoveFirstUndoesAppend(s[1..], x);
    }
  }

  /** Deleting a posting just inserted restores the index. */
  lemma DeleteUndoesInsert(m: IndexMap, key: Key, rid: RowId)
    requires NoEmptyList(m) && rid !in Postings(m, key)
    ensures RemovePosting(AddPosting(m, key, rid), key, rid) == m
  {
    var m' := AddPosting(m, key, rid);
    assert m'[key] == Postings(m, key) + [rid];
    RemoveFirstUndoesAppend(Postings(m, key), rid);
    if key in m {
      assert m'[key := m[key]] == m;
    } else {
      assert m' - {key} == m;
    }
  }

  function KeysInRange(m: IndexMap, start: Key, end: Key): set<Key> {
    set k | k in m && InRange(k, start, end)
  }

  function ConcatPostings(m: IndexMap, keys: seq<Key>): seq<RowId> {
    if keys == [] then []
    else ConcatPostings(m, keys[..|keys| - 1]) + Postings(m, keys[|keys| - 1])
  }

  /** The postings of the keys from `start` through `end`, in key order. */
  function RangeIds(m: IndexMap, start: Key, end: Key): seq<RowId> {
    ConcatPostings(m, Sorted(KeysInRange(m, start, end)))
  }

  lemma {:induction false} ConcatPostingsMembers(m: IndexMap, keys: seq<Key>)
    ensures forall rid :: rid in ConcatPostings(m, keys) <==> exists k :: k in keys && rid in Postings(m, k)
  {
    if keys != [] {
      var front, k := keys[..|keys| - 1], keys[|keys| - 1];
      ConcatPostingsMembers(m, front);
      assert keys == front + [k];
    }
  }

  lemma RangeMembers(m: IndexMap, start: Key, end: Key)
    ensures forall rid ::
      rid in RangeIds(m, start, end) <==> exists k :: InRange(k, start, end) && rid in Postings(m, k)
  {
    var keys := Sorted(KeysInRange(m, start, end));
    ConcatPostingsMembers(m, keys);
    forall rid ensures rid in RangeIds(m, start, end) <==> exists k :: InRange(k, start, end) && rid in Postings(m, k) {
      if k :| InRange(k, start, end) && rid in Postings(m, k) {
        assert k in keys;
      }
    }
  }

  // ----- keys made from values

  /** A key that some value is indexed under. */
  ghost predicate IsKey(k: Key) {
    exists v :: FromValue(v) == Success(k)
  }

  ghost predicate KeysMade(m: IndexMap) {
    forall k :: k in m ==> IsKey(k)
  }

  lemma AddKeepsKeysMade(m: IndexMap, v: Value, rid: RowId)
    requires KeysMade(m) && FromValue(v).Success?
    ensures KeysMade(AddPosting(m, FromValue(v).value, rid))
  {
  }

  /** Keys made from values all lie before the sentinel, so a range without an end starts in order and
      misses none of them from `start` on. */
  lemma OpenRangeMissesNone(m: IndexMap, start: Key)
    requires KeysMade(m)
    ensures KeysInRange(m, start, SENTINEL) == set k | k in m && Le(start, k)
    ensures IsKey(start) ==> !Lt(SENTINEL, start)
  {
    forall k | IsKey(k) ensures Lt(k, SENTINEL) && !Lt(SENTINEL, k) {
      var v :| FromValue(v) == Success(k);
      BelowSentinel(v);
      LtIsStrict(k, SENTINEL);
    }
  }

  class BTreeIndex {
    var entries: IndexMap

    constructor ()
      ensures entries == map[]
    {
      entries := map[];
    }

    method Insert(key: Key, rid: RowId)
      modifies this
      ensures entries == AddPosting(old(entries), key, rid)
    {
      entries := entries[key := (if key in entries then entries[key] else []) + [rid]];
    }

    method Delete(key: Key, rid: RowId) returns (found: bool)
      modifies this
      ensures found == (rid in Postings(old(entries), key))
      ensures entries == RemovePosting(old(entries), key, rid)
    {
      found := false;
      if key in entries {
        var ids := entries[key];
        if rid in ids {
          found := true;
          RemoveFirstBag(ids, rid);
          ids := RemoveFirst(ids, rid);
          entries := if ids == [] then entries - {key} else entries[key := ids];
        }
      }
    }

    method Get(key: Key) returns (ids: seq<RowId>)
      ensures ids == Postings(entries, key)
    {
      ids := if key in entries then entries[key] else [];
    }

    /** A start beyond the end aborts in the library. */
    method Range(start: Key, end: Option<Key>) returns (r: Result<seq<RowId>>)
      ensures
        var last := match end case Some(k) => k case None => SENTINEL;
        r == if Lt(last, start) then Failure(Panicked) else Success(RangeIds(entries, start, last))
    {
      var last := match end case Some(k) => k case None => SENTINEL;
      if Lt(last, start) {
        return Failure(Panicked);
      }
      var keys := Sorted(KeysInRange(entries, start, last));
      var out := [];
      for i := 0 to |keys|
        invariant out == ConcatPostings(entries, keys[..i])
      {
        assert keys[..i + 1][..i] == keys[..i];
        assert keys[i] in keys;
        out := out + entries[keys[i]];
      }
      assert keys[..|keys|] == keys;
      r := Success(out);
    }
  }
}
