/** One column and all its chunkings: when the sum over chunks is the sum over rows. */
module ColumnSums {
  import opened Saturation
  import opened Seqs
  import opened Values

  /** The row loop started from `r` in place of zero. */
  function SumFrom(r: i64, xs: seq<i64>): i64 {
    if xs == [] then r else SaturatingAdd(SumFrom(r, xs[..|xs| - 1]), xs[|xs| - 1])
  }

  lemma {:induction false} SumFromZero(xs: seq<i64>)
    ensures SumFrom(0, xs) == SaturatingSum(xs)
  {
    if xs != [] {
      SumFromZero(xs[..|xs| - 1]);
    }
  }

  lemma {:induction false} SumFromConcat(r: i64, a: seq<i64>, b: seq<i64>)
    ensures SumFrom(r, a + b) == SumFrom(SumFrom(r, a), b)
  {
    if b == [] {
      assert a + b == a;
    } else {
      assert (a + b)[..|a + b| - 1] == a + b[..|b| - 1];
      SumFromConcat(r, a, b[..|b| - 1]);
    }
  }

  lemma AddingKeepsOrder(p: i64, q: i64, x: i64)
    requires p <= q
    ensures 0 <= SaturatingAdd(q, x) - SaturatingAdd(p, x) <= q - p
  {
  }

  /** Starting higher never ends lower, and never gains. */
  lemma {:induction false} StartsApart(p: i64, q: i64, xs: seq<i64>)
    requires p <= q
    ensures 0 <= SumFrom(q, xs) - SumFrom(p, xs) <= q - p
  {
    if xs != [] {
      StartsApart(p, q, xs[..|xs| - 1]);
      AddingKeepsOrder(SumFrom(p, xs[..|xs| - 1]), SumFrom(q, xs[..|xs| - 1]), xs[|xs| - 1]);
    }
  }

  lemma SumOfConcat(a: seq<i64>, b: seq<i64>)
    ensures SaturatingSum(a + b) == SumFrom(SaturatingSum(a), b)
  {
    SumFromConcat(0, a, b);
    SumFromZero(a);
    SumFromZero(a + b);
  }

  /** Adding a chunk's own sum to a start that is not negative gives at least what its rows give. */
  lemma ChunkAbove(r: i64, p: i64, c: seq<i64>)
    requires 0 <= p <= r
    ensures SaturatingAdd(r, SaturatingSum(c)) >= SumFrom(p, c)
  {
    StartsApart(p, r, c);
    StartsApart(0, r, c);
    SumFromZero(c);
  }

  lemma ChunkBelow(r: i64, p: i64, c: seq<i64>)
    requires r <= p <= 0
    ensures SaturatingAdd(r, SaturatingSum(c)) <= SumFrom(p, c)
  {
    StartsApart(r, p, c);
    StartsApart(r, 0, c);
    SumFromZero(c);
  }

  ghost predicate NeverBelowZero(xs: seq<i64>) {
    forall i :: 0 <= i <= |xs| ==> SaturatingSum(xs[..i]) >= 0
  }

  ghost predicate NeverAboveZero(xs: seq<i64>) {
    forall i :: 0 <= i <= |xs| ==> SaturatingSum(xs[..i]) <= 0
  }

  lemma LastChunk(xs: seq<i64>, chunks: seq<seq<i64>>) returns (i: nat)
    requires Concat(chunks) == xs && chunks != []
    ensures i <= |xs| && Concat(chunks[..|chunks| - 1]) == xs[..i] && chunks[|chunks| - 1] == xs[i..]
    ensures SaturatingSum(xs) == SumFrom(SaturatingSum(xs[..i]), xs[i..])
  {
    i := |Concat(chunks[..|chunks| - 1])|;
    SumAcross(xs, i);
  }

  lemma PrefixOfPrefix<T>(s: seq<T>, i: nat, j: nat)
    requires j <= i <= |s|
    ensures s[..i][..j] == s[..j]
  {
  }

  lemma {:induction false} ChunksAbove(xs: seq<i64>, chunks: seq<seq<i64>>)
    requires Concat(chunks) == xs && NeverBelowZero(xs)
    ensures ChunkedSum(chunks) >= SaturatingSum(xs)
    decreases |chunks|
  {
    if chunks != [] {
      var i := LastChunk(xs, chunks);
      forall j | 0 <= j <= i ensures SaturatingSum(xs[..i][..j]) >= 0 {
        PrefixOfPrefix(xs, i, j);
      }
      ChunksAbove(xs[..i], chunks[..|chunks| - 1]);
      ChunkAbove(ChunkedSum(chunks[..|chunks| - 1]), SaturatingSum(xs[..i]), xs[i..]);
    }
  }

  lemma {:induction false} ChunksBelow(xs: seq<i64>, chunks: seq<seq<i64>>)
    requires Concat(chunks) == xs && NeverAboveZero(xs)
    ensures ChunkedSum(chunks) <= SaturatingSum(xs)
    decreases |chunks|
  {
    if chunks != [] {
      var i := LastChunk(xs, chunks);
      forall j | 0 <= j <= i ensures SaturatingSum(xs[..i][..j]) <= 0 {
        PrefixOfPrefix(xs, i, j);
      }
      ChunksBelow(xs[..i], chunks[..|chunks| - 1]);
      ChunkBelow(ChunkedSum(chunks[..|chunks| - 1]), SaturatingSum(xs[..i]), xs[i..]);
    }
  }

  /** The exact condition on a column, read off one pass over it: a sum that ends at a bound was never on
      the other side of zero, and a sum that ends elsewhere comes from runs none of which overflows. */
  ghost predicate Separable(xs: seq<i64>) {
    var sum := SaturatingSum(xs);
    if sum == I64_MAX then NeverBelowZero(xs) else if sum == I64_MIN then NeverAboveZero(xs) else RunsFit(xs)
  }

  lemma SeparableChunks(xs: seq<i64>, chunks: seq<seq<i64>>)
    requires Separable(xs) && Concat(chunks) == xs
    ensures ChunkedSum(chunks) == SaturatingSum(xs)
  {
    if SaturatingSum(xs) == I64_MAX {
      ChunksAbove(xs, chunks);
    } else if SaturatingSum(xs) == I64_MIN {
      ChunksBelow(xs, chunks);
    } else {
      FittingRuns(xs, chunks);
    }
  }

  // ----- why the condition is needed

  /** The two chunks that meet before row `i`. */
  ghost predicate SplitAgrees(xs: seq<i64>, i: nat)
    requires i <= |xs|
  {
    SaturatingAdd(SaturatingSum(xs[..i]), SaturatingSum(xs[i..])) == SaturatingSum(xs)
  }

  ghost predicate SplitsAgree(xs: seq<i64>) {
    forall i :: 0 <= i <= |xs| ==> SplitAgrees(xs, i)
  }

  lemma HeadSum(x: i64, ys: seq<i64>)
    ensures SaturatingSum([x] + ys) == SumFrom(x, ys)
  {
    assert [x][..0] == [];
    SumOfConcat([x], ys);
  }

  lemma SplitHead<T>(s: seq<T>, k: nat)
    requires k < |s|
    ensures s[k..] == [s[k]] + s[k + 1..] && s[..k + 1] == s[..k] + [s[k]]
  {
  }

  lemma SuffixSum(xs: seq<i64>, k: nat)
    requires k < |xs|
    ensures SaturatingSum(xs[k..]) == SumFrom(xs[k], xs[k + 1..])
  {
    SplitHead(xs, k);
    HeadSum(xs[k], xs[k + 1..]);
  }

  lemma PrefixSum(xs: seq<i64>, k: nat)
    requires k < |xs|
    ensures SaturatingSum(xs[..k + 1]) == SaturatingAdd(SaturatingSum(xs[..k]), xs[k])
  {
    SplitHead(xs, k);
    SumSnoc(xs[..k], xs[k]);
  }

  lemma SumAcross(xs: seq<i64>, k: nat)
    requires k <= |xs|
    ensures SaturatingSum(xs) == SumFrom(SaturatingSum(xs[..k]), xs[k..])
  {
    SplitAt(xs, k);
    SumOfConcat(xs[..k], xs[k..]);
  }

  /** Arithmetic of one row: `p` and `p'` are the running sums around it, `v` the final sum, and `atX`,
      `at0`, `atP` what the rows after it make of the row's value, of zero, and of `p'`. */
  lemma RowNotClamped(p: i64, x: i64, p': i64, v: i64, at0: i64, atX: i64, atP: i64)
    requires p' == SaturatingAdd(p, x) && v == atP && p + atX == v && p' + at0 == v
    requires x <= p' ==> atP - atX <= p' - x
    requires p' <= x ==> atX - atP <= x - p'
    ensures p' == p + x
  {
  }

  lemma RunningSumExact(xs: seq<i64>, k: nat)
    requires SplitsAgree(xs) && I64_MIN < SaturatingSum(xs) < I64_MAX && k < |xs|
    ensures SaturatingSum(xs[..k + 1]) == SaturatingSum(xs[..k]) + xs[k]
  {
    var p, p', rest := SaturatingSum(xs[..k]), SaturatingSum(xs[..k + 1]), xs[k + 1..];
    assert SplitAgrees(xs, k) && SplitAgrees(xs, k + 1);
    SuffixSum(xs, k);
    PrefixSum(xs, k);
    SumAcross(xs, k + 1);
    SumFromZero(rest);
    if xs[k] <= p' {
      StartsApart(xs[k], p', rest);
    } else {
      StartsApart(p', xs[k], rest);
    }
    RowNotClamped(p, xs[k], p', SaturatingSum(xs), SumFrom(0, rest), SumFrom(xs[k], rest), SumFrom(p', rest));
  }

  lemma {:induction false} RunningTotals(xs: seq<i64>, k: nat)
    requires SplitsAgree(xs) && I64_MIN < SaturatingSum(xs) < I64_MAX && k <= |xs|
    ensures SaturatingSum(xs[..k]) == Total(xs[..k])
    decreases k
  {
    if k > 0 {
      RunningTotals(xs, k - 1);
      RunningSumExact(xs, k - 1);
      assert xs[..k][..k - 1] == xs[..k - 1];
    }
  }

  /** A run changes the sum of what follows it by no more than its own sum. */
  lemma RunSum(run: seq<i64>, rest: seq<i64>)
    ensures var (s, t) := (SaturatingSum(run), SaturatingSum(run + rest) - SaturatingSum(rest));
      if s >= 0 then 0 <= t <= s else s <= t <= 0
  {
    var s := SaturatingSum(run);
    SumOfConcat(run, rest);
    SumFromZero(rest);
    if s >= 0 {
      StartsApart(0, s, rest);
    } else {
      StartsApart(s, 0, rest);
    }
  }

  lemma SplitRun<T>(s: seq<T>, i: nat, j: nat)
    requires i <= j <= |s|
    ensures s[i..] == s[i..j] + s[j..]
  {
  }

  lemma SuffixesApart(xs: seq<i64>, i: nat, j: nat)
    requires i <= j <= |xs|
    ensures I64_MIN <= SaturatingSum(xs[i..]) - SaturatingSum(xs[j..]) <= I64_MAX
  {
    SplitRun(xs, i, j);
    RunSum(xs[i..j], xs[j..]);
  }

  lemma SplitIsExact(xs: seq<i64>, i: nat)
    requires SplitsAgree(xs) && I64_MIN < SaturatingSum(xs) < I64_MAX && i <= |xs|
    ensures Total(xs[..i]) + SaturatingSum(xs[i..]) == SaturatingSum(xs)
  {
    RunningTotals(xs, i);
    assert SplitAgrees(xs, i);
  }

  lemma RunFitsBetween(xs: seq<i64>, i: nat, j: nat)
    requires SplitsAgree(xs) && I64_MIN < SaturatingSum(xs) < I64_MAX && i <= j <= |xs|
    ensures RunFits(xs, i, j)
  {
    SplitIsExact(xs, i);
    SplitIsExact(xs, j);
    SuffixesApart(xs, i, j);
  }

  lemma SplitsSeparate(xs: seq<i64>)
    requires SplitsAgree(xs)
    ensures Separable(xs)
  {
    forall i | 0 <= i <= |xs|
      ensures SaturatingSum(xs) == I64_MAX ==> SaturatingSum(xs[..i]) >= 0
      ensures SaturatingSum(xs) == I64_MIN ==> SaturatingSum(xs[..i]) <= 0
    {
      assert SplitAgrees(xs, i);
    }
    if I64_MIN < SaturatingSum(xs) < I64_MAX {
      forall i, j | 0 <= i <= j <= |xs| ensures RunFits(xs, i, j) {
        RunFitsBetween(xs, i, j);
      }
    }
  }

  // ----- the exact conditions

  /** Every way to cut this column into chunks gives its row-by-row sum. */
  ghost predicate AnyChunkingSums(xs: seq<i64>) {
    forall chunks: seq<seq<i64>> :: ChunkingSums(xs, chunks)
  }

  ghost predicate ChunkingSums(xs: seq<i64>, chunks: seq<seq<i64>>) {
    Concat(chunks) == xs ==> ChunkedSum(chunks) == SaturatingSum(xs)
  }

  lemma WholeChunking(xs: seq<i64>, chunks: seq<seq<i64>>)
    requires AnyChunkingSums(xs) && Concat(chunks) == xs
    ensures ChunkedSum(chunks) == SaturatingSum(xs)
  {
    assert ChunkingSums(xs, chunks);
  }

  lemma TwoChunksAgree(xs: seq<i64>, a: seq<i64>, b: seq<i64>)
    requires AnyChunkingSums(xs) && a + b == xs
    ensures SaturatingAdd(SaturatingSum(a), SaturatingSum(b)) == SaturatingSum(xs)
  {
    ConcatTwo(a, b);
    WholeChunking(xs, [a, b]);
  }

  lemma ChunkingsSplit(xs: seq<i64>)
    requires AnyChunkingSums(xs)
    ensures SplitsAgree(xs)
  {
    forall i | 0 <= i <= |xs| ensures SplitAgrees(xs, i) {
      SplitAt(xs, i);
      TwoChunksAgree(xs, xs[..i], xs[i..]);
    }
  }

  /** The sum does not depend on where the chunks of a column end exactly when the column is separable, and
      for that it is enough that every cut into two chunks agrees. */
  lemma AnyChunkingSumsIff(xs: seq<i64>)
    ensures AnyChunkingSums(xs) <==> Separable(xs)
    ensures SplitsAgree(xs) <==> Separable(xs)
  {
    if Separable(xs) {
      forall chunks: seq<seq<i64>> ensures ChunkingSums(xs, chunks) {
        if Concat(chunks) == xs {
          SeparableChunks(xs, chunks);
        }
      }
      ChunkingsSplit(xs);
    }
    if AnyChunkingSums(xs) {
      ChunkingsSplit(xs);
    }
    if SplitsAgree(xs) {
      SplitsSeparate(xs);
    }
  }

  /** Every way to cut this column into chunks adds up to its exact sum. */
  ghost predicate AnyChunkingExact(xs: seq<i64>) {
    forall chunks: seq<seq<i64>> :: ChunkingExact(xs, chunks)
  }

  ghost predicate ChunkingExact(xs: seq<i64>, chunks: seq<seq<i64>>) {
    Concat(chunks) == xs ==> ChunkedSum(chunks) == Total(xs)
  }

  /** That holds exactly when the column is separable and its row-by-row sum is the exact one. */
  lemma AnyChunkingExactIff(xs: seq<i64>)
    ensures AnyChunkingExact(xs) <==> Separable(xs) && SaturatingSum(xs) == Total(xs)
  {
    AnyChunkingSumsIff(xs);
    OneChunk(xs);
    if Separable(xs) && SaturatingSum(xs) == Total(xs) {
      forall chunks: seq<seq<i64>> ensures ChunkingExact(xs, chunks) {
        assert ChunkingSums(xs, chunks);
      }
    }
    if AnyChunkingExact(xs) {
      assert ChunkingExact(xs, [xs]);
      forall chunks: seq<seq<i64>> ensures ChunkingSums(xs, chunks) {
        assert ChunkingExact(xs, chunks);
      }
    }
  }

  /** What is steady at every moment of its growth is separable in the end. */
  lemma SteadyIsSeparable(xs: seq<i64>)
    requires Steady(xs)
    ensures Separable(xs)
  {
    forall chunks: seq<seq<i64>> ensures ChunkingSums(xs, chunks) {
      if Concat(chunks) == xs {
        SteadyChunks(xs, chunks);
      }
    }
    AnyChunkingSumsIff(xs);
  }

  lemma NeverBelowZeroSnoc(ys: seq<i64>, x: i64)
    requires NeverBelowZero(ys) && SaturatingSum(ys) + x >= 0
    ensures NeverBelowZero(ys + [x]) && SaturatingSum(ys + [x]) == SaturatingAdd(SaturatingSum(ys), x)
  {
    var xs := ys + [x];
    SumSnoc(ys, x);
    forall i | 0 <= i <= |xs| ensures SaturatingSum(xs[..i]) >= 0 {
      assert xs[..i] == if i <= |ys| then ys[..i] else xs;
    }
  }

  lemma SteadyFront(ys: seq<i64>, x: i64)
    requires Steady(ys + [x])
    ensures Steady(ys)
  {
    SteadyPrefix(ys + [x], |ys|);
    assert (ys + [x])[..|ys|] == ys;
  }

  /** A last row that takes a sum to MAX makes a column separable that was not. */
  lemma EndsAtBound(ys: seq<i64>, x: i64)
    requires NeverBelowZero(ys) && SaturatingSum(ys) + x >= I64_MAX && !Separable(ys)
    ensures Separable(ys + [x]) && !Steady(ys + [x])
  {
    NeverBelowZeroSnoc(ys, x);
    if Steady(ys + [x]) {
      SteadyFront(ys, x);
      SteadyIsSeparable(ys);
    }
  }

  /** The converse fails: MAX, 1, -1, MAX adds up to MAX however it is cut, but before the last row
      it did not. */
  lemma SeparableNotSteady()
    ensures var ys: seq<i64> := [I64_MAX, 1, -1];
      !Separable(ys) && Separable(ys + [I64_MAX]) && !Steady(ys + [I64_MAX])
  {
    Pulled();
    EndsAtBound([I64_MAX, 1, -1], I64_MAX);
  }

  lemma Pulled()
    ensures var xs: seq<i64> := [I64_MAX, 1, -1];
      NeverBelowZero(xs) && SaturatingSum(xs) == I64_MAX - 1 && !Separable(xs)
  {
    NeverBelowZeroSnoc([], I64_MAX);
    assert [] + [I64_MAX] == [I64_MAX];
    NeverBelowZeroSnoc([I64_MAX], 1);
    assert [I64_MAX] + [1] == [I64_MAX, 1];
    NeverBelowZeroSnoc([I64_MAX, 1], -1);
    assert [I64_MAX, 1] + [-1] == [I64_MAX, 1, -1];
    ChunksCanMatter();
    ConcatTwo([I64_MAX], [1, -1]);
    assert [I64_MAX] + [1, -1] == [I64_MAX, 1, -1];
    AnyChunkingSumsIff([I64_MAX, 1, -1]);
    var chunks: seq<seq<i64>> := [[I64_MAX], [1, -1]];
    assert !ChunkingSums([I64_MAX, 1, -1], chunks);
  }
}
