/** Byte strings in the order of Rust's `Vec<u8>`: lexicographic, a proper prefix first. */
module Lex {

  type Key = seq<int>

  predicate Lt(a: Key, b: Key) {
    b != [] && (a == [] || a[0] < b[0] || (a[0] == b[0] && Lt(a[1..], b[1..])))
  }

  predicate Le(a: Key, b: Key) {
    a == b || Lt(a, b)
  }

  lemma {:induction false} LtIsStrict(a: Key, b: Key)
    requires Lt(a, b)
    ensures !Lt(b, a) && a != b
  {
    if a != [] && a[0] == b[0] {
      LtIsStrict(a[1..], b[1..]);
    }
  }

  lemma {:induction false} LtIsTransitive(a: Key, b: Key, c: Key)
    requires Lt(a, b) && Lt(b, c)
    ensures Lt(a, c)
  {
    if a != [] && a[0] == b[0] && b[0] == c[0] {
      LtIsTransitive(a[1..], b[1..], c[1..]);
    }
  }

  lemma {:induction false} LtIsTotal(a: Key, b: Key)
    ensures a == b || Lt(a, b) || Lt(b, a)
  {
    if a != [] && b != [] && a[0] == b[0] {
      LtIsTotal(a[1..], b[1..]);
      assert a == [a[0]] + a[1..] && b == [b[0]] + b[1..];
    }
  }

  predicate IsLeast(k: Key, keys: set<Key>) {
    k in keys && forall o :: o in keys ==> Le(k, o)
  }

  lemma {:induction false} LeastExists(keys: set<Key>) returns (k: Key)
    requires keys != {}
    ensures IsLeast(k, keys)
    decreases |keys|
  {
    k :| k in keys;
    if keys != {k} {
      var rest := LeastExists(keys - {k});
      k := LeastOfBoth(keys, k, rest);
    }
  }

  lemma LeastOfBoth(keys: set<Key>, k: Key, rest: Key) returns (least: Key)
    requires k in keys && IsLeast(rest, keys - {k})
    ensures IsLeast(least, keys)
  {
    LtIsTotal(k, rest);
    least := if Lt(rest, k) then rest else k;
    forall o | o in keys ensures Le(least, o) {
      if o != k {
        assert o in keys - {k};
        if Lt(k, rest) && rest != o {
          LtIsTransitive(k, rest, o);
        }
      }
    }
  }

  lemma LeastIsUnique(keys: set<Key>)
    ensures forall j, k :: IsLeast(j, keys) && IsLeast(k, keys) ==> j == k
  {
    forall j, k | IsLeast(j, keys) && IsLeast(k, keys) ensures j == k {
      if j != k { LtIsStrict(j, k); }
    }
  }

  ghost predicate Increasing(keys: seq<Key>) {
    forall i, j :: 0 <= i < j < |keys| ==> Lt(keys[i], keys[j])
  }

  /** The keys of a `BTreeMap` in iteration order. */
  function Sorted(keys: set<Key>): (r: seq<Key>)
    ensures forall k :: k in r <==> k in keys
    ensures Increasing(r)
    decreases |keys|
  {
    if keys == {} then [] else
      assert exists k :: IsLeast(k, keys) by { var k := LeastExists(keys); }
      LeastIsUnique(keys);
      var k :| k in keys && IsLeast(k, keys);
      var rest := Sorted(keys - {k});
      assert forall o :: o in rest ==> Lt(k, o);
      assert forall j :: 0 <= j < |rest| ==> Lt(k, rest[j]);
      [k] + rest
  }

  lemma IncreasingIsDistinct(keys: seq<Key>, i: nat, j: nat)
    requires Increasing(keys) && i < |keys| && j < |keys| && keys[i] == keys[j]
    ensures i == j
  {
    if i < j { LtIsStrict(keys[i], keys[j]); }
    if j < i { LtIsStrict(keys[j], keys[i]); }
  }
}
