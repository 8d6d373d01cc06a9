/** A stable sort by a strict comparison, and why its result is the only one possible. */
module Sorting {
  import opened Seqs

  /** On the elements of `s`, `lt` orders classes of ties. */
  ghost predicate WeakOrderOn<T(!new)>(lt: (T, T) -> bool, s: seq<T>) {
    && (forall x, y :: x in s && y in s && lt(x, y) ==> !lt(y, x))
    && (forall x, y, z :: x in s && y in s && z in s && !lt(x, y) && !lt(y, z) ==> !lt(x, z))
  }

  function InsertSorted<T>(lt: (T, T) -> bool, x: T, s: seq<T>): (r: seq<T>)
    ensures multiset(r) == multiset{x} + multiset(s)
  {
    if s == [] then [x]
    else
      assert s == [s[0]] + s[1..];
      if lt(s[0], x) then [s[0]] + InsertSorted(lt, x, s[1..]) else [x] + s
  }

  function StableSort<T>(lt: (T, T) -> bool, s: seq<T>): (r: seq<T>)
    ensures multiset(r) == multiset(s)
  {
    if s == [] then []
    else
      assert s == [s[0]] + s[1..];
      InsertSorted(lt, s[0], StableSort(lt, s[1..]))
  }

  ghost predicate InOrder<T>(lt: (T, T) -> bool, s: seq<T>) {
    forall i, j :: 0 <= i < j < |s| ==> !lt(s[j], s[i])
  }

  predicate Tied<T>(lt: (T, T) -> bool, x: T, y: T) {
    !lt(x, y) && !lt(y, x)
  }

  /** The elements tied with `x`, in order. */
  function TiedWith<T(!new)>(lt: (T, T) -> bool, x: T, s: seq<T>): seq<T> {
    Select(y => Tied(lt, x, y), s)
  }

  /** `r` is `s` in order, with ties left in the order of `s`. */
  ghost predicate IsStableSort<T(!new)>(lt: (T, T) -> bool, r: seq<T>, s: seq<T>) {
    && multiset(r) == multiset(s)
    && InOrder(lt, r)
    && forall x :: x in s ==> TiedWith(lt, x, r) == TiedWith(lt, x, s)
  }

  lemma SameMembers<T(!new)>(r: seq<T>, s: seq<T>)
    requires multiset(r) == multiset(s)
    ensures forall x :: x in r <==> x in s
  {
    assert forall x :: x in r <==> x in multiset(r);
    assert forall x :: x in s <==> x in multiset(s);
  }

  lemma WeakOrderOnFewer<T(!new)>(lt: (T, T) -> bool, s: seq<T>, r: seq<T>)
    requires WeakOrderOn(lt, s) && forall x :: x in r ==> x in s
    ensures WeakOrderOn(lt, r)
  {
  }

  lemma {:induction false} InsertInOrder<T(!new)>(lt: (T, T) -> bool, x: T, s: seq<T>, all: seq<T>)
    requires WeakOrderOn(lt, all) && x in all && (forall y :: y in s ==> y in all) && InOrder(lt, s)
    ensures InOrder(lt, InsertSorted(lt, x, s))
  {
    if s != [] {
      var r := InsertSorted(lt, x, s);
      if lt(s[0], x) {
        var rest := InsertSorted(lt, x, s[1..]);
        InsertInOrder(lt, x, s[1..], all);
        forall y | y in rest ensures !lt(y, s[0]) {
          assert y in multiset(rest);
        }
        assert forall j :: 0 <= j < |rest| ==> rest[j] in rest;
      } else {
        forall j | 0 <= j < |s| ensures !lt(s[j], x) {
          assert s[0] in all && s[j] in all;
        }
      }
    }
  }

  lemma SelectOne<T(!new)>(p: T -> bool, x: T)
    ensures Select(p, [x]) == if p(x) then [x] else []
  {
    assert [x][..0] == [];
  }

  lemma TiedWithTail<T(!new)>(lt: (T, T) -> bool, x: T, s: seq<T>)
    requires s != []
    ensures TiedWith(lt, x, s) == (if Tied(lt, x, s[0]) then [s[0]] else []) + TiedWith(lt, x, s[1..])
  {
    var p := y => Tied(lt, x, y);
    assert s == [s[0]] + s[1..];
    SelectConcat(p, [s[0]], s[1..]);
    SelectOne(p, s[0]);
  }

  lemma NotBothTied<T(!new)>(lt: (T, T) -> bool, z: T, x: T, y: T, all: seq<T>)
    requires WeakOrderOn(lt, all) && x in all && y in all && z in all && lt(x, y)
    ensures !(Tied(lt, z, x) && Tied(lt, z, y))
  {
  }

  lemma TiesSwap<T(!new)>(lt: (T, T) -> bool, z: T, x: T, s: seq<T>)
    requires s != [] && !(Tied(lt, z, x) && Tied(lt, z, s[0]))
    ensures TiedWith(lt, z, [x] + s) ==
      (if Tied(lt, z, s[0]) then [s[0]] else []) + TiedWith(lt, z, [x] + s[1..])
  {
    TiedWithTail(lt, z, [x] + s);
    TiedWithTail(lt, z, s);
    TiedWithTail(lt, z, [x] + s[1..]);
    assert ([x] + s)[1..] == s && ([x] + s[1..])[1..] == s[1..];
  }

  lemma {:induction false} InsertKeepsTies<T(!new)>(lt: (T, T) -> bool, z: T, x: T, s: seq<T>, all: seq<T>)
    requires WeakOrderOn(lt, all) && x in all && z in all && (forall y :: y in s ==> y in all)
    ensures TiedWith(lt, z, InsertSorted(lt, x, s)) == TiedWith(lt, z, [x] + s)
  {
    if s != [] && lt(s[0], x) {
      var rest := InsertSorted(lt, x, s[1..]);
      InsertKeepsTies(lt, z, x, s[1..], all);
      TiedWithTail(lt, z, [s[0]] + rest);
      assert ([s[0]] + rest)[1..] == rest;
      NotBothTied(lt, z, s[0], x, all);
      TiesSwap(lt, z, x, s);
    }
  }

  lemma {:induction false} SortKeepsTies<T(!new)>(lt: (T, T) -> bool, z: T, s: seq<T>, all: seq<T>)
    requires WeakOrderOn(lt, all) && z in all && (forall y :: y in s ==> y in all)
    ensures TiedWith(lt, z, StableSort(lt, s)) == TiedWith(lt, z, s)
  {
    if s != [] {
      var p := y => Tied(lt, z, y);
      var rest := StableSort(lt, s[1..]);
      SortKeepsTies(lt, z, s[1..], all);
      SameMembers(rest, s[1..]);
      InsertKeepsTies(lt, z, s[0], rest, all);
      SelectConcat(p, [s[0]], rest);
      SelectConcat(p, [s[0]], s[1..]);
      assert s == [s[0]] + s[1..];
    }
  }

  lemma {:induction false} SortInOrder<T(!new)>(lt: (T, T) -> bool, s: seq<T>, all: seq<T>)
    requires WeakOrderOn(lt, all) && (forall y :: y in s ==> y in all)
    ensures InOrder(lt, StableSort(lt, s))
  {
    if s != [] {
      var rest := StableSort(lt, s[1..]);
      SortInOrder(lt, s[1..], all);
      SameMembers(rest, s[1..]);
      InsertInOrder(lt, s[0], rest, all);
    }
  }

  lemma SortIsStable<T(!new)>(lt: (T, T) -> bool, s: seq<T>)
    requires WeakOrderOn(lt, s)
    ensures IsStableSort(lt, StableSort(lt, s), s)
  {
    SortInOrder(lt, s, s);
    forall x | x in s ensures TiedWith(lt, x, StableSort(lt, s)) == TiedWith(lt, x, s) {
      SortKeepsTies(lt, x, s, s);
    }
  }

  lemma TiedWithHead<T(!new)>(lt: (T, T) -> bool, x: T, s: seq<T>)
    requires s != [] && Tied(lt, x, s[0])
    ensures TiedWith(lt, x, s) != [] && TiedWith(lt, x, s)[0] == s[0]
  {
    var p := y => Tied(lt, x, y);
    assert s == [s[0]] + s[1..];
    SelectConcat(p, [s[0]], s[1..]);
    SelectOne(p, s[0]);
  }

  /** Two ordered lists with the same ties in the same order start alike. */
  lemma HeadsAgree<T(!new)>(lt: (T, T) -> bool, a: seq<T>, b: seq<T>)
    requires a != [] && b != [] && WeakOrderOn(lt, a) && multiset(a) == multiset(b)
    requires InOrder(lt, a) && InOrder(lt, b)
    requires forall x :: x in a ==> TiedWith(lt, x, a) == TiedWith(lt, x, b)
    ensures a[0] == b[0]
  {
    SameMembers(a, b);
    assert a[0] in b && b[0] in a && a[0] in a;
    var i :| 0 <= i < |a| && a[i] == b[0];
    var j :| 0 <= j < |b| && b[j] == a[0];
    assert Tied(lt, a[0], b[0]);
    TiedWithHead(lt, a[0], a);
    TiedWithHead(lt, a[0], b);
  }

  lemma {:induction false} StableSortIsUnique<T(!new)>(lt: (T, T) -> bool, a: seq<T>, b: seq<T>)
    requires WeakOrderOn(lt, a) && multiset(a) == multiset(b)
    requires InOrder(lt, a) && InOrder(lt, b)
    requires forall x :: x in a ==> TiedWith(lt, x, a) == TiedWith(lt, x, b)
    ensures a == b
  {
    if a == [] {
      assert |multiset(b)| == 0;
    } else {
      assert |multiset(a)| == |a| && |multiset(b)| == |b|;
      HeadsAgree(lt, a, b);
      assert a == [a[0]] + a[1..] && b == [b[0]] + b[1..];
      BagWithout(a, 0, b, 0);
      assert Without(a, 0) == a[1..] && Without(b, 0) == b[1..];
      WeakOrderOnFewer(lt, a, a[1..]);
      forall x | x in a[1..] ensures TiedWith(lt, x, a[1..]) == TiedWith(lt, x, b[1..]) {
        TiedWithTail(lt, x, a);
        TiedWithTail(lt, x, b);
        assert x in a;
        var h := if Tied(lt, x, a[0]) then [a[0]] else [];
        assert h + TiedWith(lt, x, a[1..]) == h + TiedWith(lt, x, b[1..]);
        assert TiedWith(lt, x, a[1..]) == (h + TiedWith(lt, x, a[1..]))[|h|..];
      }
      StableSortIsUnique(lt, a[1..], b[1..]);
    }
  }

  /** The sort is the one permutation that is in order and leaves ties alone. */
  lemma SortIsTheStableSort<T(!new)>(lt: (T, T) -> bool, s: seq<T>, r: seq<T>)
    requires WeakOrderOn(lt, s)
    ensures IsStableSort(lt, r, s) <==> r == StableSort(lt, s)
  {
    SortIsStable(lt, s);
    if IsStableSort(lt, r, s) {
      SameMembers(r, s);
      WeakOrderOnFewer(lt, s, r);
      StableSortIsUnique(lt, r, StableSort(lt, s));
    }
  }

  // ----- ties, place by place

  lemma SelectUpTo<T(!new)>(p: T -> bool, s: seq<T>, k: nat)
    requires k <= |s| && forall j :: k <= j < |s| ==> !p(s[j])
    ensures |Select(p, s)| <= k
  {
    assert s == s[..k] + s[k..];
    SelectConcat(p, s[..k], s[k..]);
    SelectNone(p, s[k..]);
    SelectSameLength(p, x => true, s[..k]);
    SelectAll(x => true, s[..k]);
  }

  lemma SelectFrom<T(!new)>(p: T -> bool, s: seq<T>, k: nat)
    requires k < |s| && forall i :: 0 <= i <= k ==> p(s[i])
    ensures |Select(p, s)| > k
  {
    assert s == s[..k + 1] + s[k + 1..];
    SelectConcat(p, s[..k + 1], s[k + 1..]);
    SelectAll(p, s[..k + 1]);
  }

  /** Of two ordered lists of the same elements, neither has a lesser element at any place. */
  lemma NotLess<T(!new)>(lt: (T, T) -> bool, a: seq<T>, b: seq<T>, k: nat)
    requires multiset(a) == multiset(b) && WeakOrderOn(lt, a) && InOrder(lt, a) && InOrder(lt, b)
    requires k < |a| == |b|
    ensures !lt(a[k], b[k])
  {
    if lt(a[k], b[k]) {
      var p := x => lt(x, b[k]);
      SameMembers(a, b);
      assert b[k] in a;
      forall i | 0 <= i <= k ensures p(a[i]) {
        assert a[i] in a && a[k] in a;
      }
      forall j | k <= j < |b| ensures !p(b[j]) {
        assert b[j] in a;
      }
      SelectFrom(p, a, k);
      SelectUpTo(p, b, k);
      BagSelectAgrees(p, a, b);
      BagSize(Select(p, a), Select(p, b));
      assert false;
    }
  }

  /** Two lists in order whose elements tie place by place. */
  ghost predicate TiedRowByRow<T(!new)>(lt: (T, T) -> bool, a: seq<T>, b: seq<T>) {
    && InOrder(lt, a) && InOrder(lt, b)
    && |a| == |b| && forall k :: 0 <= k < |a| ==> Tied(lt, a[k], b[k])
  }

  /** Whatever order the input comes in, the sorted lists tie place by place. */
  lemma SortsTie<T(!new)>(lt: (T, T) -> bool, a: seq<T>, b: seq<T>)
    requires multiset(a) == multiset(b) && WeakOrderOn(lt, a)
    ensures TiedRowByRow(lt, StableSort(lt, a), StableSort(lt, b))
  {
    var r, s := StableSort(lt, a), StableSort(lt, b);
    SameMembers(a, b);
    WeakOrderOnFewer(lt, a, b);
    SortIsStable(lt, a);
    SortIsStable(lt, b);
    SameMembers(a, r);
    SameMembers(a, s);
    WeakOrderOnFewer(lt, a, r);
    WeakOrderOnFewer(lt, a, s);
    BagSize(r, s);
    forall k | 0 <= k < |r| ensures Tied(lt, r[k], s[k]) {
      NotLess(lt, r, s, k);
      NotLess(lt, s, r, k);
    }
  }

  ghost predicate TiesAreEqual<T(!new)>(lt: (T, T) -> bool, s: seq<T>) {
    forall x, y :: x in s && y in s && Tied(lt, x, y) ==> x == y
  }

  /** Where only equal elements tie, the order of the input does not show in the sorted list. */
  lemma SortOfBag<T(!new)>(lt: (T, T) -> bool, a: seq<T>, b: seq<T>)
    requires multiset(a) == multiset(b) && WeakOrderOn(lt, a) && TiesAreEqual(lt, a)
    ensures StableSort(lt, a) == StableSort(lt, b)
  {
    var r, s := StableSort(lt, a), StableSort(lt, b);
    SortsTie(lt, a, b);
    SameMembers(a, r);
    SameMembers(a, s);
    forall k | 0 <= k < |r| ensures r[k] == s[k] {
      assert r[k] in a && s[k] in a;
    }
  }
}
