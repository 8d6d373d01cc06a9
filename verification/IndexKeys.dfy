/** The byte keys of the B-tree index and the order they induce. */
module IndexKeys {
  import opened Lex
  import opened Values

  function Pow256(k: nat): (p: nat)
    ensures p >= 1
  {
    if k == 0 then 1 else 256 * Pow256(k - 1)
  }

  /** `len` bytes, most significant first. */
  function ToBigEndian(n: nat, len: nat): (bytes: Key)
    requires n < Pow256(len)
    ensures |bytes| == len
    ensures forall i :: 0 <= i < len ==> 0 <= bytes[i] < 256
  {
    if len == 0 then [] else ToBigEndian(n / 256, len - 1) + [n % 256]
  }

  lemma {:induction false} LtOfSnoc(a: Key, x: int, b: Key, y: int)
    requires |a| == |b|
    ensures Lt(a + [x], b + [y]) <==> Lt(a, b) || (a == b && x < y)
  {
    if a != [] {
      assert (a + [x])[1..] == a[1..] + [x] && (b + [y])[1..] == b[1..] + [y];
      assert a == [a[0]] + a[1..] && b == [b[0]] + b[1..];
      LtOfSnoc(a[1..], x, b[1..], y);
    }
  }

  lemma {:induction false} BigEndianOrder(m: nat, n: nat, len: nat)
    requires m < Pow256(len) && n < Pow256(len)
    ensures Lt(ToBigEndian(m, len), ToBigEndian(n, len)) <==> m < n
    ensures ToBigEndian(m, len) == ToBigEndian(n, len) <==> m == n
  {
    if len > 0 {
      var a, b := ToBigEndian(m / 256, len - 1), ToBigEndian(n / 256, len - 1);
      BigEndianOrder(m / 256, n / 256, len - 1);
      LtOfSnoc(a, m % 256, b, n % 256);
      assert a + [m % 256] == b + [n % 256] ==> a == b && m % 256 == n % 256 by {
        assert (a + [m % 256])[..len - 1] == a && (b + [n % 256])[..len - 1] == b;
        assert (a + [m % 256])[len - 1] == m % 256 && (b + [n % 256])[len - 1] == n % 256;
      }
    }
  }

  const TWO_64 := 0x1_0000_0000_0000_0000

  lemma EightBytes()
    ensures Pow256(8) == TWO_64
  {
    assert Pow256(4) == 0x1_0000_0000;
    assert Pow256(6) == 0x1_0000_0000_0000;
  }

  /** The bits of a 64-bit integer read as an unsigned number. */
  function TwosComplement(i: i64): nat {
    if i < 0 then i + TWO_64 else i
  }

  function IntKey(i: i64): (k: Key)
    ensures |k| == 8
    ensures forall j :: 0 <= j < 8 ==> 0 <= k[j] < 256
  {
    EightBytes();
    ToBigEndian(TwosComplement(i), 8)
  }

  function FromValue(v: Value): Result<Key> {
    match v
    case Bool(b) => Success([if b then 1 else 0])
    case Int64(i) => Success(IntKey(i))
    case Str(s) => Success(s)
    case _ => Failure(NotIndexable)
  }

  /** Negative integers come after the others; among integers of one sign the order is numeric. */
  lemma IntKeyOrder(x: i64, y: i64)
    ensures Lt(IntKey(x), IntKey(y)) <==> if (x < 0) == (y < 0) then x < y else y < 0
  {
    EightBytes();
    BigEndianOrder(TwosComplement(x), TwosComplement(y), 8);
  }

  lemma IntKeyInjective(x: i64, y: i64)
    ensures IntKey(x) == IntKey(y) <==> x == y
  {
    EightBytes();
    BigEndianOrder(TwosComplement(x), TwosComplement(y), 8);
  }

  predicate SameType(v: Value, w: Value) {
    (v.Bool? && w.Bool?) || (v.Int64? && w.Int64?) || (v.Str? && w.Str?)
  }

  /** Within one type, keys identify values. */
  lemma FromValueInjective(v: Value, w: Value)
    requires SameType(v, w)
    ensures FromValue(v) == FromValue(w) <==> v == w
  {
    if v.Int64? {
      IntKeyInjective(v.i, w.i);
    }
  }

  /** Across types they do not: the boolean `true` and the one-byte string "\u{1}" share a key. */
  lemma KeysCollideAcrossTypes()
    ensures FromValue(Bool(true)) == FromValue(Str([1])) && Bool(true) != Str([1])
  {
  }

  /** The key that `range` uses when it is given no end. */
  const SENTINEL: Key := seq(256, i => 0xff)

  /** Strings never reach the byte 0xff and integers have only eight bytes. */
  lemma BelowSentinel(v: Value)
    requires FromValue(v).Success?
    ensures Lt(FromValue(v).value, SENTINEL)
  {
    var k := FromValue(v).value;
    match v
    case Int64(_) => ShortBelowSentinel(k, 256);
    case _ =>
  }

  lemma {:induction false} ShortBelowSentinel(k: Key, n: nat)
    requires |k| < n && forall j :: 0 <= j < |k| ==> 0 <= k[j] < 256
    ensures Lt(k, seq(n, i => 0xff))
  {
    var top := seq(n, i => 0xff);
    if k != [] {
      assert top[1..] == seq(n - 1, i => 0xff);
      ShortBelowSentinel(k[1..], n - 1);
    }
  }

  /** A key lies in the inclusive range that `BTreeMap::range` walks. */
  predicate InRange(k: Key, start: Key, end: Key) {
    Le(start, k) && Le(k, end)
  }

  /** When both bounds have one sign and are in order, the byte range holds exactly the integers
      between them, whatever the signs of the other keys. */
  lemma SameSignRangeIsExact(a: i64, b: i64, x: i64)
    requires (a < 0) == (b < 0) && a <= b
    ensures InRange(IntKey(x), IntKey(a), IntKey(b)) <==> a <= x <= b
  {
    IntKeyInjective(a, x);
    IntKeyInjective(x, b);
    IntKeyOrder(a, x);
    IntKeyOrder(x, b);
  }

  /** Bounds of different signs never give the numeric range: -1 to 1 is out of order as keys,
      and 1 to -1 holds every integer from 1 up and every integer from -1 down. */
  lemma MixedSignRange(a: i64, b: i64, x: i64)
    requires (a < 0) != (b < 0)
    ensures a < 0 ==> Lt(IntKey(b), IntKey(a))
    ensures b < 0 ==> (InRange(IntKey(x), IntKey(a), IntKey(b)) <==> (x >= a || x <= b))
  {
    IntKeyOrder(b, a);
    IntKeyInjective(a, x);
    IntKeyInjective(x, b);
    IntKeyOrder(a, x);
    IntKeyOrder(x, b);
  }

  /** An integer range read by keys is the numeric range exactly when its bounds have one sign and are in
      order: with other bounds it either aborts or holds the wrong integers. */
  lemma RangeIsNumericIff(a: i64, b: i64)
    ensures !Lt(IntKey(b), IntKey(a)) && (forall x: i64 :: InRange(IntKey(x), IntKey(a), IntKey(b)) <==> a <= x <= b)
       <==> (a < 0) == (b < 0) && a <= b
  {
    IntKeyOrder(b, a);
    if (a < 0) == (b < 0) && a <= b {
      forall x: i64 ensures InRange(IntKey(x), IntKey(a), IntKey(b)) <==> a <= x <= b {
        SameSignRangeIsExact(a, b, x);
      }
    } else if b < 0 <= a {
      MixedSignRange(a, b, a);
    }
  }
}
