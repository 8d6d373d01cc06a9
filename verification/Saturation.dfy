/** Saturating 64-bit sums, taken row by row or chunk by chunk. */
module Saturation {
  import opened Seqs
  import opened Values

  function Clamp(x: int): i64 {
    if x > I64_MAX then I64_MAX else if x < I64_MIN then I64_MIN else x
  }

  function SaturatingAdd(a: i64, b: i64): i64 {
    Clamp(a + b)
  }

  /** The exact sum. */
  function Total(xs: seq<i64>): int {
    if xs == [] then 0 else Total(xs[..|xs| - 1]) + xs[|xs| - 1]
  }

  /** The sum of the row loop: `sum = sum.saturating_add(x)` from left to right. */
  function SaturatingSum(xs: seq<i64>): i64 {
    if xs == [] then 0 else SaturatingAdd(SaturatingSum(xs[..|xs| - 1]), xs[|xs| - 1])
  }

  /** The sum of the chunk loop: each chunk is summed from zero, then added. */
  function ChunkedSum(chunks: seq<seq<i64>>): i64 {
    if chunks == [] then 0 else SaturatingAdd(ChunkedSum(chunks[..|chunks| - 1]), SaturatingSum(chunks[|chunks| - 1]))
  }

  lemma {:induction false} TotalConcat(xs: seq<i64>, ys: seq<i64>)
    ensures Total(xs + ys) == Total(xs) + Total(ys)
  {
    if ys == [] {
      assert xs + ys == xs;
    } else {
      assert (xs + ys)[..|xs + ys| - 1] == xs + ys[..|ys| - 1];
      TotalConcat(xs, ys[..|ys| - 1]);
    }
  }

  lemma SplitAt<T>(s: seq<T>, i: nat)
    requires i <= |s|
    ensures s[..i] + s[i..] == s
  {
  }

  lemma TotalSplit(xs: seq<i64>, i: nat)
    requires i <= |xs|
    ensures Total(xs) == Total(xs[..i]) + Total(xs[i..])
  {
    SplitAt(xs, i);
    TotalConcat(xs[..i], xs[i..]);
  }

  lemma TotalSlice(xs: seq<i64>, i: nat, j: nat)
    requires i <= j <= |xs|
    ensures Total(xs[i..j]) == Total(xs[..j]) - Total(xs[..i])
  {
    assert xs[..j] == xs[..i] + xs[i..j];
    TotalConcat(xs[..i], xs[i..j]);
  }

  predicate NonNegative(xs: seq<i64>) {
    forall i :: 0 <= i < |xs| ==> xs[i] >= 0
  }

  predicate NonPositive(xs: seq<i64>) {
    forall i :: 0 <= i < |xs| ==> xs[i] <= 0
  }

  /** What a run of rows must satisfy: when it overflows, the running total before it does not pull
      back, and neither does any row after it. */
  ghost predicate RunIsSteady(xs: seq<i64>, i: nat, j: nat)
    requires i <= j <= |xs|
  {
    var run := Total(xs[..j]) - Total(xs[..i]);
    && (run > I64_MAX ==> Total(xs[..i]) >= 0 && NonNegative(xs[j..]))
    && (run < I64_MIN ==> Total(xs[..i]) <= 0 && NonPositive(xs[j..]))
  }

  /** The exact condition under which, at every moment of a column's growth, saturation does not depend on
      where chunks end. */
  ghost predicate Steady(xs: seq<i64>) {
    forall i, j :: 0 <= i <= j <= |xs| ==> RunIsSteady(xs, i, j)
  }

  /** A weaker condition, enough for one sum: nothing pulls back after an overflow. */
  ghost predicate Settled(xs: seq<i64>) {
    forall j :: 0 <= j <= |xs| ==> SettledAt(xs, j)
  }

  ghost predicate SettledAt(xs: seq<i64>, j: nat)
    requires j <= |xs|
  {
    && (Total(xs[..j]) > I64_MAX ==> NonNegative(xs[j..]))
    && (Total(xs[..j]) < I64_MIN ==> NonPositive(xs[j..]))
  }

  lemma {:induction false} SteadyPrefix(xs: seq<i64>, n: nat)
    requires Steady(xs) && n <= |xs|
    ensures Steady(xs[..n])
  {
    forall i, j | 0 <= i <= j <= n ensures RunIsSteady(xs[..n], i, j) {
      assert RunIsSteady(xs, i, j);
      assert xs[..n][..i] == xs[..i] && xs[..n][..j] == xs[..j];
      assert forall k :: 0 <= k < n - j ==> xs[..n][j..][k] == xs[j..][k];
    }
  }

  lemma {:induction false} SettledFront(xs: seq<i64>)
    requires Settled(xs) && xs != []
    ensures Settled(xs[..|xs| - 1])
  {
    var ys := xs[..|xs| - 1];
    forall j | 0 <= j <= |ys| ensures SettledAt(ys, j) {
      assert SettledAt(xs, j);
      assert ys[..j] == xs[..j];
      assert forall k :: 0 <= k < |ys| - j ==> ys[j..][k] == xs[j..][k];
    }
  }

  lemma {:induction false} SettledSum(xs: seq<i64>)
    requires Settled(xs)
    ensures SaturatingSum(xs) == Clamp(Total(xs))
  {
    if xs != [] {
      SettledFront(xs);
      SettledSum(xs[..|xs| - 1]);
      var n := |xs| - 1;
      assert SettledAt(xs, n);
      assert xs[..n] == xs[..|xs| - 1] && xs[n..][0] == xs[|xs| - 1];
    }
  }

  lemma SteadySegment(xs: seq<i64>, i: nat)
    requires Steady(xs) && i <= |xs|
    ensures Settled(xs[i..])
  {
    var ys := xs[i..];
    forall j | 0 <= j <= |ys| ensures SettledAt(ys, j) {
      assert ys[..j] == xs[i..i + j] && ys[j..] == xs[i + j..];
      TotalSlice(xs, i, i + j);
      assert RunIsSteady(xs, i, i + j);
    }
  }

  lemma {:induction false} TotalSign(xs: seq<i64>)
    ensures NonNegative(xs) ==> Total(xs) >= 0
    ensures NonPositive(xs) ==> Total(xs) <= 0
  {
    if xs != [] {
      TotalSign(xs[..|xs| - 1]);
    }
  }

  /** On a steady column both loops give the exact sum, clamped once. */
  lemma {:induction false} SteadyChunks(xs: seq<i64>, chunks: seq<seq<i64>>)
    requires Steady(xs) && Concat(chunks) == xs
    ensures ChunkedSum(chunks) == SaturatingSum(xs) == Clamp(Total(xs))
  {
    SteadySum(xs);
    if chunks != [] {
      var i, n := |Concat(chunks[..|chunks| - 1])|, |xs|;
      assert xs[..i] == Concat(chunks[..|chunks| - 1]) && xs[i..] == chunks[|chunks| - 1] && xs[..n] == xs;
      SteadyPrefix(xs, i);
      SteadyChunks(xs[..i], chunks[..|chunks| - 1]);
      SteadySegment(xs, i);
      SettledSum(xs[i..]);
      TotalConcat(xs[..i], xs[i..]);
      TotalSign(xs[i..]);
      assert RunIsSteady(xs, i, n);
      assert Total(xs[..0]) == 0;
      assert RunIsSteady(xs, 0, i);
    }
  }

  /** At every moment of its growth, the column has one saturating sum, whatever the chunks. */
  ghost predicate ChunksNeverMatter(xs: seq<i64>) {
    forall n: nat, chunks: seq<seq<i64>> :: n <= |xs| ==> SumsAgree(chunks, xs, n)
  }

  ghost predicate SumsAgree(chunks: seq<seq<i64>>, xs: seq<i64>, n: nat)
    requires n <= |xs|
  {
    Concat(chunks) == xs[..n] ==> ChunkedSum(chunks) == SaturatingSum(xs[..n])
  }

  lemma {:induction false} NeverMatterPrefix(xs: seq<i64>, n: nat)
    requires ChunksNeverMatter(xs) && n <= |xs|
    ensures ChunksNeverMatter(xs[..n])
  {
    forall m: nat, chunks: seq<seq<i64>> | m <= n ensures SumsAgree(chunks, xs[..n], m) {
      assert SumsAgree(chunks, xs, m);
      assert xs[..n][..m] == xs[..m];
    }
  }

  lemma ConcatTwo(a: seq<i64>, b: seq<i64>)
    ensures Concat([a, b]) == a + b
    ensures ChunkedSum([a, b]) == SaturatingAdd(SaturatingSum(a), SaturatingSum(b))
  {
    assert ([a, b])[..|[a, b]| - 1] == [a] && ([a])[..|[a]| - 1] == [];
    assert Concat([a]) == a;
    assert ChunkedSum([a]) == SaturatingSum(a);
  }

  lemma WholeColumn(xs: seq<i64>, chunks: seq<seq<i64>>)
    requires ChunksNeverMatter(xs) && Concat(chunks) == xs
    ensures ChunkedSum(chunks) == SaturatingSum(xs)
  {
    assert xs[..|xs|] == xs;
    assert SumsAgree(chunks, xs, |xs|);
  }

  lemma TwoParts(xs: seq<i64>, a: seq<i64>, b: seq<i64>)
    requires ChunksNeverMatter(xs) && a + b == xs
    ensures SaturatingSum(xs) == SaturatingAdd(SaturatingSum(a), SaturatingSum(b))
  {
    ConcatTwo(a, b);
    WholeColumn(xs, [a, b]);
  }

  lemma SteadySums(xs: seq<i64>, i: nat)
    requires Steady(xs) && i <= |xs|
    ensures SaturatingSum(xs[..i]) == Clamp(Total(xs[..i]))
    ensures SaturatingSum(xs[i..]) == Clamp(Total(xs) - Total(xs[..i]))
  {
    SteadyPrefix(xs, i);
    SteadySum(xs[..i]);
    SteadyTail(xs, i);
    TotalSplit(xs, i);
  }

  lemma SteadyTail(xs: seq<i64>, i: nat)
    requires Steady(xs) && i <= |xs|
    ensures SaturatingSum(xs[i..]) == Clamp(Total(xs[i..]))
  {
    SteadySegment(xs, i);
    SettledSum(xs[i..]);
  }

  lemma SteadySum(xs: seq<i64>)
    requires Steady(xs)
    ensures Settled(xs) && SaturatingSum(xs) == Clamp(Total(xs))
  {
    SteadySegment(xs, 0);
    assert xs[0..] == xs;
    SettledSum(xs);
  }

  lemma SumSnoc(ys: seq<i64>, x: i64)
    ensures SaturatingSum(ys + [x]) == SaturatingAdd(SaturatingSum(ys), x)
  {
    Snoc(ys, x);
  }

  lemma SplitSnoc<T>(s: seq<T>, x: T, i: nat)
    requires i <= |s|
    ensures s[..i] + (s[i..] + [x]) == s + [x]
  {
  }

  /** The two chunks that tell the loops apart: everything before row `i`, and the rest. */
  lemma TwoChunks(ys: seq<i64>, x: i64, i: nat)
    requires ChunksNeverMatter(ys + [x]) && i <= |ys|
    ensures SaturatingSum(ys + [x]) == SaturatingAdd(SaturatingSum(ys[..i]), SaturatingSum(ys[i..] + [x]))
  {
    SplitSnoc(ys, x, i);
    TwoParts(ys + [x], ys[..i], ys[i..] + [x]);
  }

  ghost predicate LastStepAgrees(ys: i64, before: i64, after: i64, x: i64) {
    SaturatingAdd(ys, x) == SaturatingAdd(before, SaturatingAdd(after, x))
  }

  lemma StepsAgree(whole: i64, before: i64, tail: i64, ys: i64, after: i64, x: i64)
    requires whole == SaturatingAdd(before, tail) && whole == SaturatingAdd(ys, x) && tail == SaturatingAdd(after, x)
    ensures LastStepAgrees(ys, before, after, x)
  {
  }

  lemma LastStep(ys: seq<i64>, x: i64, i: nat)
    requires ChunksNeverMatter(ys + [x]) && i <= |ys|
    ensures LastStepAgrees(SaturatingSum(ys), SaturatingSum(ys[..i]), SaturatingSum(ys[i..]), x)
  {
    TwoChunks(ys, x, i);
    SumSnoc(ys, x);
    SumSnoc(ys[i..], x);
    StepsAgree(SaturatingSum(ys + [x]), SaturatingSum(ys[..i]), SaturatingSum(ys[i..] + [x]), SaturatingSum(ys),
               SaturatingSum(ys[i..]), x);
  }

  /** What two chunks ending at row `i` force, in terms of exact totals. */
  lemma SplitEquation(ys: seq<i64>, x: i64, i: nat)
    requires ChunksNeverMatter(ys + [x]) && i <= |ys| && Steady(ys)
    ensures LastStepAgrees(Clamp(Total(ys)), Clamp(Total(ys[..i])), Clamp(Total(ys) - Total(ys[..i])), x)
  {
    LastStep(ys, x, i);
    SteadySum(ys);
    SteadySums(ys, i);
  }

  /** Arithmetic of a last row `x` after a run of total `t - e` that starts at `e`. */
  lemma StartsOnItsSide(e: int, t: int, x: i64)
    requires LastStepAgrees(Clamp(t), Clamp(e), Clamp(t - e), x)
    requires (t - e > I64_MAX ==> e >= 0) && (t - e < I64_MIN ==> e <= 0)
    requires (e > I64_MAX ==> t - e >= 0) && (e < I64_MIN ==> t - e <= 0)
    ensures (t + x - e > I64_MAX ==> e >= 0) && (t + x - e < I64_MIN ==> e <= 0)
  {
  }

  lemma SteadyAt(ys: seq<i64>, i: nat)
    requires i <= |ys| && Steady(ys)
    ensures var e, t := Total(ys[..i]), Total(ys);
      && (t - e > I64_MAX ==> e >= 0) && (t - e < I64_MIN ==> e <= 0)
      && (e > I64_MAX ==> t - e >= 0) && (e < I64_MIN ==> t - e <= 0)
  {
    assert ys[..|ys|] == ys && ys[..0] == [];
    assert RunIsSteady(ys, i, |ys|);
    assert RunIsSteady(ys, 0, i);
    TotalSplit(ys, i);
    TotalSign(ys[i..]);
  }

  lemma LastRowTotals(ys: seq<i64>, x: i64, i: nat)
    requires ChunksNeverMatter(ys + [x]) && i <= |ys| && Steady(ys)
    ensures var run := Total(ys) + x - Total(ys[..i]);
      (run > I64_MAX ==> Total(ys[..i]) >= 0) && (run < I64_MIN ==> Total(ys[..i]) <= 0)
  {
    SplitEquation(ys, x, i);
    SteadyAt(ys, i);
    StartsOnItsSide(Total(ys[..i]), Total(ys), x);
  }

  lemma TotalSnoc(ys: seq<i64>, x: i64, i: nat)
    requires i <= |ys|
    ensures Total((ys + [x])[..|ys| + 1]) == Total(ys) + x && (ys + [x])[..i] == ys[..i]
  {
    Snoc(ys, x);
    assert (ys + [x])[..|ys| + 1] == ys + [x];
  }

  /** A run that overflows with the last row does not start on the other side of zero. */
  lemma LastRowSteady(ys: seq<i64>, x: i64, i: nat)
    requires ChunksNeverMatter(ys + [x]) && i <= |ys| && Steady(ys)
    ensures RunIsSteady(ys + [x], i, |ys| + 1)
  {
    LastRowTotals(ys, x, i);
    TotalSnoc(ys, x, i);
  }

  lemma {:induction false} Crossing(xs: seq<i64>, j: nat) returns (k: nat)
    requires j <= |xs| && (Total(xs[..j]) > I64_MAX || Total(xs[..j]) < I64_MIN)
    ensures k < j && I64_MIN <= Total(xs[..k]) <= I64_MAX
    ensures Total(xs[..j]) > I64_MAX && Settled(xs) ==> Total(xs[..k + 1]) > I64_MAX
    ensures Total(xs[..j]) < I64_MIN && Settled(xs) ==> Total(xs[..k + 1]) < I64_MIN
  {
    assert xs[..j][..|xs[..j]| - 1] == xs[..j - 1];
    k := j - 1;
    if Total(xs[..k]) > I64_MAX || Total(xs[..k]) < I64_MIN {
      var up := Total(xs[..k]) > I64_MAX;
      k := Crossing(xs, j - 1);
      assert xs[j - 1..][0] == xs[j - 1];
    }
  }

  /** Arithmetic of a pull back: where the total crossed a bound in the step after `e` and stands at `t`
      beyond it, a last row `x` that does not change the sums does not turn round. */
  lemma NotPulledBack(e: int, step: i64, t: int, x: i64)
    requires I64_MIN <= e <= I64_MAX
    requires LastStepAgrees(Clamp(t), Clamp(e), Clamp(t - e), x)
    ensures e + step > I64_MAX && t >= e + step ==> x >= 0
    ensures e + step < I64_MIN && t <= e + step ==> x <= 0
  {
  }

  /** After a run that overflowed, the last row does not pull back. */
  lemma NothingPullsBack(ys: seq<i64>, x: i64, i: nat, j: nat)
    requires ChunksNeverMatter(ys + [x]) && i <= j <= |ys| && Steady(ys)
    ensures RunIsSteady(ys + [x], i, j)
  {
    var xs := ys + [x];
    assert RunIsSteady(ys, i, j);
    assert ys[..i] == xs[..i] && ys[..j] == xs[..j] && xs[j..] == ys[j..] + [x];
    OverflowSticks(ys, x, j);
  }

  lemma OverflowSticks(ys: seq<i64>, x: i64, j: nat)
    requires ChunksNeverMatter(ys + [x]) && j <= |ys| && Steady(ys)
    ensures Total(ys[..j]) > I64_MAX ==> x >= 0
    ensures Total(ys[..j]) < I64_MIN ==> x <= 0
  {
    if Total(ys[..j]) > I64_MAX || Total(ys[..j]) < I64_MIN {
      SteadySum(ys);
      var k := Crossing(ys, j);
      SplitEquation(ys, x, k);
      CrossingTotals(ys, k);
      NotPulledBack(Total(ys[..k]), ys[k], Total(ys), x);
    }
  }

  /** In a settled column the total moves on in the direction in which it crossed a bound. */
  lemma CrossingTotals(ys: seq<i64>, k: nat)
    requires Settled(ys) && k < |ys|
    ensures Total(ys[..k + 1]) == Total(ys[..k]) + ys[k]
    ensures Total(ys[..k + 1]) > I64_MAX ==> Total(ys) >= Total(ys[..k + 1])
    ensures Total(ys[..k + 1]) < I64_MIN ==> Total(ys) <= Total(ys[..k + 1])
  {
    assert SettledAt(ys, k + 1);
    assert ys[..k + 1][..k] == ys[..k];
    TotalSplit(ys, k + 1);
    TotalSign(ys[k + 1..]);
  }

  lemma {:induction false} NeverMatterIsSteady(xs: seq<i64>)
    requires ChunksNeverMatter(xs)
    ensures Steady(xs)
  {
    if xs != [] {
      var ys, x := xs[..|xs| - 1], xs[|xs| - 1];
      NeverMatterPrefix(xs, |xs| - 1);
      NeverMatterIsSteady(ys);
      assert xs == ys + [x];
      forall i, j | 0 <= i <= j <= |xs| ensures RunIsSteady(xs, i, j) {
        if j < |xs| {
          NothingPullsBack(ys, x, i, j);
        } else if i < |xs| {
          LastRowSteady(ys, x, i);
        }
      }
    }
  }

  /** The chunked sum equals the row-by-row sum, for every chunking of every prefix of the column,
      exactly when the column is steady. */
  lemma ChunksNeverMatterIffSteady(xs: seq<i64>)
    ensures ChunksNeverMatter(xs) <==> Steady(xs)
  {
    if Steady(xs) {
      forall n: nat, chunks: seq<seq<i64>> | n <= |xs| ensures SumsAgree(chunks, xs, n) {
        SteadyPrefix(xs, n);
        if Concat(chunks) == xs[..n] {
          SteadyChunks(xs[..n], chunks);
        }
      }
    }
    if ChunksNeverMatter(xs) {
      NeverMatterIsSteady(xs);
    }
  }

  /** Not every column is steady: the chunks `[MAX]` and `[1, -1]` add up to MAX, the rows to MAX - 1. */
  lemma ChunksCanMatter()
    ensures
      var chunks: seq<seq<i64>> := [[I64_MAX], [1, -1]];
      ChunkedSum(chunks) == I64_MAX && SaturatingSum(Concat(chunks)) == I64_MAX - 1
  {
    var a: seq<i64>, b: seq<i64> := [I64_MAX], [1, -1];
    ConcatTwo(a, b);
    assert a[..|a| - 1] == [] && b[..|b| - 1] == [1] && ([1])[..|[1]| - 1] == [];
    assert (a + b)[..|a + b| - 1] == [I64_MAX, 1] && ([I64_MAX, 1])[..|[I64_MAX, 1]| - 1] == a;
  }

  /** No run of rows overflows. */
  ghost predicate RunsFit(xs: seq<i64>) {
    forall i, j :: 0 <= i <= j <= |xs| ==> RunFits(xs, i, j)
  }

  ghost predicate RunFits(xs: seq<i64>, i: nat, j: nat)
    requires i <= j <= |xs|
  {
    I64_MIN <= Total(xs[..j]) - Total(xs[..i]) <= I64_MAX
  }

  lemma FittingRuns(xs: seq<i64>, chunks: seq<seq<i64>>)
    requires RunsFit(xs) && Concat(chunks) == xs
    ensures ChunkedSum(chunks) == SaturatingSum(xs) == Total(xs)
  {
    forall i, j | 0 <= i <= j <= |xs| ensures RunIsSteady(xs, i, j) {
      assert RunFits(xs, i, j);
    }
    SteadyChunks(xs, chunks);
    assert RunFits(xs, 0, |xs|);
    assert xs[..|xs|] == xs && xs[..0] == [];
  }

  /** At every moment of its growth, every chunking of the column adds up to its exact sum. */
  ghost predicate ChunksAlwaysExact(xs: seq<i64>) {
    forall n: nat, chunks: seq<seq<i64>> :: n <= |xs| ==> SumIsExact(chunks, xs, n)
  }

  ghost predicate SumIsExact(chunks: seq<seq<i64>>, xs: seq<i64>, n: nat)
    requires n <= |xs|
  {
    Concat(chunks) == xs[..n] ==> ChunkedSum(chunks) == Total(xs[..n])
  }

  lemma OneChunk(xs: seq<i64>)
    ensures Concat([xs]) == xs && ChunkedSum([xs]) == SaturatingSum(xs)
  {
    assert [xs][..0] == [];
  }

  lemma PrefixIsExact(xs: seq<i64>, n: nat)
    requires ChunksAlwaysExact(xs) && n <= |xs|
    ensures SaturatingSum(xs[..n]) == Total(xs[..n])
  {
    OneChunk(xs[..n]);
    assert SumIsExact([xs[..n]], xs, n);
  }

  /** The chunked sum is exact for every chunking of every prefix of the column exactly when no run of rows
      overflows. */
  lemma ChunksExactIffRunsFit(xs: seq<i64>)
    ensures ChunksAlwaysExact(xs) <==> RunsFit(xs)
  {
    if RunsFit(xs) {
      forall n: nat, chunks: seq<seq<i64>> | n <= |xs| ensures SumIsExact(chunks, xs, n) {
        forall i, j | 0 <= i <= j <= n ensures RunFits(xs[..n], i, j) {
          assert RunFits(xs, i, j);
          assert xs[..n][..i] == xs[..i] && xs[..n][..j] == xs[..j];
        }
        if Concat(chunks) == xs[..n] {
          FittingRuns(xs[..n], chunks);
        }
      }
    }
    if ChunksAlwaysExact(xs) {
      forall n: nat, chunks: seq<seq<i64>> | n <= |xs| ensures SumsAgree(chunks, xs, n) {
        PrefixIsExact(xs, n);
        assert SumIsExact(chunks, xs, n);
      }
      NeverMatterIsSteady(xs);
      forall i, j | 0 <= i <= j <= |xs| ensures RunFits(xs, i, j) {
        PrefixIsExact(xs, i);
        PrefixIsExact(xs, j);
        assert RunIsSteady(xs, i, j);
      }
    }
  }

  function Abs(x: int): nat {
    if x < 0 then -x else x
  }

  function TotalAbs(xs: seq<i64>): nat {
    if xs == [] then 0 else TotalAbs(xs[..|xs| - 1]) + Abs(xs[|xs| - 1])
  }

  lemma {:induction false} TotalAbsBounds(xs: seq<i64>, k: nat)
    requires k <= |xs|
    ensures Abs(Total(xs) - Total(xs[..k])) + TotalAbs(xs[..k]) <= TotalAbs(xs)
    ensures Abs(Total(xs[..k])) <= TotalAbs(xs[..k])
  {
    if k < |xs| {
      TotalAbsBounds(xs[..|xs| - 1], k);
      assert xs[..|xs| - 1][..k] == xs[..k];
    } else {
      assert xs[..k] == xs;
      if xs != [] {
        TotalAbsBounds(xs[..|xs| - 1], |xs| - 1);
        assert xs[..|xs| - 1][..|xs| - 1] == xs[..|xs| - 1];
      }
    }
  }

  /** Absolute values that total at most MAX: both loops give the exact sum. */
  lemma SmallColumns(xs: seq<i64>)
    requires TotalAbs(xs) <= I64_MAX
    ensures Steady(xs) && SaturatingSum(xs) == Total(xs)
  {
    forall i, j | 0 <= i <= j <= |xs| ensures RunIsSteady(xs, i, j) {
      TotalAbsBounds(xs, j);
      TotalAbsBounds(xs[..j], i);
      assert xs[..j][..i] == xs[..i];
    }
    assert xs[..|xs|] == xs;
    TotalAbsBounds(xs, |xs|);
    SteadySum(xs);
  }

  /** Values of one sign: both loops give the exact sum, clamped. */
  lemma OneSignColumns(xs: seq<i64>)
    requires NonNegative(xs) || NonPositive(xs)
    ensures Steady(xs) && SaturatingSum(xs) == Clamp(Total(xs))
  {
    forall i, j | 0 <= i <= j <= |xs| ensures RunIsSteady(xs, i, j) {
      TotalSign(xs[..i]);
      TotalSign(xs[i..j]);
      TotalSlice(xs, i, j);
    }
    SteadySum(xs);
  }
}
