/** The exact quotient of a sum and a count, as a value that is the same for equal quotients. */
module Means {
  import opened Values

  lemma {:induction false} TimesKeepsOrder(x: int, y: int, b: nat)
    requires x <= y
    ensures x * b <= y * b
    decreases y - x
  {
    if x < y {
      TimesKeepsOrder(x, y - 1, b);
      assert y * b == (y - 1) * b + b;
    }
  }

  lemma TimesApart(x: int, y: int, b: nat)
    requires x < y
    ensures x * b + b <= y * b
  {
    TimesKeepsOrder(x + 1, y, b);
    assert (x + 1) * b == x * b + b;
  }

  lemma Cancel(x: int, y: int, b: nat)
    requires b > 0 && x * b == y * b
    ensures x == y
  {
    if x < y {
      TimesApart(x, y, b);
    } else if y < x {
      TimesApart(y, x, b);
    }
  }

  lemma MultipleHasNoRest(p: int, b: nat)
    requires b > 0
    ensures (p * b) % b == 0 && (p * b) / b == p
  {
    var q := (p * b) / b;
    assert p * b == q * b + (p * b) % b;
    if q < p {
      TimesApart(q, p, b);
    } else if p < q {
      TimesApart(p, q, b);
    }
  }

  /** The least denominator from `q` on with which the quotient can be written. */
  function LeastDenominator(sum: int, count: nat, q: nat): (d: nat)
    requires 1 <= q <= count
    ensures q <= d <= count && (sum * d) % count == 0
    ensures forall e: nat :: q <= e < d ==> (sum * e) % count != 0
    decreases count - q
  {
    if (sum * q) % count == 0 then q
    else
      MultipleHasNoRest(sum, count);
      LeastDenominator(sum, count, q + 1)
  }

  /** The quotient in lowest terms. */
  function Mean(sum: int, count: nat): Value
    requires count > 0
  {
    var d := LeastDenominator(sum, count, 1);
    Average(sum * d / count, d)
  }

  /** A fraction equal to `sum / count` that no lesser denominator has. */
  ghost predicate IsQuotient(v: Value, sum: int, count: nat) {
    && v.Average? && v.denominator > 0 && v.numerator * count == sum * v.denominator
    && forall d: nat, n: int :: 0 < d < v.denominator ==> n * count != sum * d
  }

  lemma MeanIsQuotient(sum: int, count: nat)
    requires count > 0
    ensures IsQuotient(Mean(sum, count), sum, count)
  {
    var d := LeastDenominator(sum, count, 1);
    ExactQuotient(sum * d, count);
    forall e: nat, n: int | 0 < e < d ensures n * count != sum * e {
      if n * count == sum * e {
        MultipleHasNoRest(n, count);
        assert false;
      }
    }
  }

  lemma Regroup(a: int, b: int, c: int, d: int, q: int, p: int)
    requires a * d == c * b && a * q == p * b
    ensures (c * q) * b == (p * d) * b
  {
    calc {
      (c * q) * b;
      (c * b) * q;
      (a * d) * q;
      (a * q) * d;
      (p * b) * d;
      (p * d) * b;
    }
  }

  /** What can be written with denominator `q` for one of two equal quotients can be for the other. */
  lemma SameMultiples(a: int, b: nat, c: int, d: nat, q: nat)
    requires b > 0 && d > 0 && a * d == c * b && (a * q) % b == 0
    ensures (c * q) % d == 0 && c * q / d == a * q / b
  {
    var p := a * q / b;
    assert a * q == p * b;
    Regroup(a, b, c, d, q, p);
    Cancel(c * q, p * d, b);
    MultipleHasNoRest(p, d);
  }

  lemma Rejoin(a: int, b: int, c: int, d: int, q: int, p: int)
    requires a * q == p * b && c * q == p * d
    ensures (a * d) * q == (c * b) * q
  {
    calc {
      (a * d) * q;
      (a * q) * d;
      (p * b) * d;
      (p * d) * b;
      (c * q) * b;
      (c * b) * q;
    }
  }

  lemma ExactQuotient(x: int, b: nat)
    requires b > 0 && x % b == 0
    ensures x == (x / b) * b
  {
  }

  /** Two quotients are one value exactly when they are equal. */
  lemma MeansAgree(a: int, b: nat, c: int, d: nat)
    requires b > 0 && d > 0
    ensures Mean(a, b) == Mean(c, d) <==> a * d == c * b
  {
    var q, r := LeastDenominator(a, b, 1), LeastDenominator(c, d, 1);
    if a * d == c * b {
      SameMultiples(a, b, c, d, q);
      SameMultiples(c, d, a, b, r);
    }
    if Mean(a, b) == Mean(c, d) {
      ExactQuotient(a * q, b);
      ExactQuotient(c * q, d);
      Rejoin(a, b, c, d, q, a * q / b);
      Cancel(a * d, c * b, q);
    }
  }

  /** The mean of `n` numbers, if there are any. */
  function MeanOrNull(sum: int, n: nat): Value {
    if n == 0 then Null else Mean(sum, n)
  }

  lemma MeansOrNullAgree(a: int, m: nat, b: int, n: nat)
    requires m <= n && (m == 0 ==> a == 0)
    ensures MeanOrNull(a, m) == MeanOrNull(b, n) <==> b * m == a * n && (m == 0 ==> n == 0)
  {
    if m > 0 {
      MeansAgree(a, m, b, n);
    }
  }
}
