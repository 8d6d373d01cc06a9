/** Aggregates of a table for every way in which its rows may have been cut into chunks. */
module AllChunkings {
  import opened Aggregates
  import opened Columnar
  import opened ColumnSums
  import opened Means
  import opened Plans
  import opened Saturation
  import opened Schemas
  import opened Seqs
  import opened Values

  /** A cut of rows into pieces such as the session makes: none empty, none longer than the chunk size. */
  ghost predicate IsCut(size: nat, segments: seq<seq<Row>>, rows: seq<Row>) {
    Concat(segments) == rows && forall s :: s in segments ==> 1 <= |s| <= size
  }

  /** Wherever the chunks of these rows end, the two paths agree. */
  ghost predicate EveryChunkingAgrees(size: nat, schema: Schema, rows: seq<Row>, agg: AggExpr) {
    forall chunks, segments :: HoldsSegments(schema, chunks, segments) && IsCut(size, segments, rows) ==>
      PathsAgree(schema, chunks, rows, agg)
  }

  ghost predicate PathsAgree(schema: Schema, chunks: seq<ColumnarChunk>, rows: seq<Row>, agg: AggExpr) {
    RowAggregate(rows, schema, agg) == Success(ChunkAggregate(chunks, agg))
  }

  function AsChunks(schema: Schema, segments: seq<seq<Row>>): seq<ColumnarChunk> {
    seq(|segments|, i requires 0 <= i < |segments| => NewChunk(i, Transpose(schema, segments[i])))
  }

  lemma AsOneChunk(schema: Schema, rows: seq<Row>)
    ensures HoldsSegments(schema, AsChunks(schema, [rows]), [rows]) && Concat([rows]) == rows
  {
    assert [rows][..0] == [];
    forall i | 0 <= i < 1 ensures HoldsBatch(schema, AsChunks(schema, [rows])[i], [rows][i]) {
    }
  }

  lemma AsTwoChunks(schema: Schema, a: seq<Row>, b: seq<Row>)
    ensures HoldsSegments(schema, AsChunks(schema, [a, b]), [a, b]) && Concat([a, b]) == a + b
  {
    assert [a, b][..|[a, b]| - 1] == [a] && [a][..|[a]| - 1] == [];
    assert Concat([a]) == a;
    forall i | 0 <= i < 2 ensures HoldsBatch(schema, AsChunks(schema, [a, b])[i], [a, b][i]) {
    }
  }

  /** A cut between integers is a cut between cells. */
  lemma {:induction false} CutOfInts(cells: seq<Value>, i: nat) returns (k: nat)
    requires i <= |Ints(cells)|
    ensures k <= |cells| && Ints(cells[..k]) == Ints(cells)[..i] && Ints(cells[k..]) == Ints(cells)[i..]
  {
    k := |cells|;
    if i == |Ints(cells)| {
      assert cells[..k] == cells;
    } else {
      var front, last := cells[..|cells| - 1], cells[|cells| - 1];
      k := CutOfInts(front, i);
      assert cells[..k] == front[..k] && cells[k..] == front[k..] + [last];
      IntsConcat(front[k..], [last]);
      IntsConcat(front, [last]);
      assert cells == front + [last];
    }
  }

  lemma SumOfTwoChunks(schema: Schema, a: seq<Row>, b: seq<Row>, name: string)
    requires Indexed(schema) && ColumnIndex(schema, name).Some?
    ensures var i := ColumnIndex(schema, name).value;
      ChunkedSum(IntSlices(Slices(AsChunks(schema, [a, b]), name)))
        == SaturatingAdd(SaturatingSum(Ints(Cells(a, i))), SaturatingSum(Ints(Cells(b, i))))
  {
    var i := ColumnIndex(schema, name).value;
    AsTwoChunks(schema, a, b);
    SlicesAre(schema, AsChunks(schema, [a, b]), [a, b], name);
    assert IntSlices(CellSlices([a, b], i)) == [Ints(Cells(a, i)), Ints(Cells(b, i))];
    ConcatTwo(Ints(Cells(a, i)), Ints(Cells(b, i)));
  }

  /** The cut into one piece, or into none if there are no rows. */
  function Whole(rows: seq<Row>): seq<seq<Row>> {
    if rows == [] then [] else [rows]
  }

  lemma WholeIsCut(size: nat, schema: Schema, rows: seq<Row>)
    requires |rows| <= size
    ensures IsCut(size, Whole(rows), rows) && HoldsSegments(schema, AsChunks(schema, Whole(rows)), Whole(rows))
  {
    if rows != [] {
      AsOneChunk(schema, rows);
    }
  }

  lemma SumOfWhole(schema: Schema, rows: seq<Row>, name: string)
    requires Indexed(schema) && ColumnIndex(schema, name).Some?
    ensures
      ChunkedSum(IntSlices(Slices(AsChunks(schema, Whole(rows)), name)))
        == SaturatingSum(Ints(Cells(rows, ColumnIndex(schema, name).value)))
  {
    var i := ColumnIndex(schema, name).value;
    if rows == [] {
      assert Cells(rows, i) == [];
    } else {
      AsOneChunk(schema, rows);
      SlicesAre(schema, AsChunks(schema, [rows]), [rows], name);
      assert IntSlices(CellSlices([rows], i)) == [Ints(Cells(rows, i))];
      OneChunk(Ints(Cells(rows, i)));
    }
  }

  lemma CellsOfCut(rows: seq<Row>, i: nat, k: nat)
    requires k <= |rows|
    ensures Cells(rows[..k], i) == Cells(rows, i)[..k] && Cells(rows[k..], i) == Cells(rows, i)[k..]
    ensures rows[..k] + rows[k..] == rows
  {
  }

  /** What agreement of the two paths says of the sum over chunks. */
  ghost predicate ShowsSum(agg: AggExpr, cells: seq<Value>, sum: i64) {
    var ints := Ints(cells);
    if ints == [] then agg.Avg? ==> NonNull(cells) == 0
    else if agg.Avg? then sum * |ints| == Total(ints) * NonNull(cells)
    else sum == SaturatingSum(ints)
  }

  lemma AgreementShows(schema: Schema, chunks: seq<ColumnarChunk>, segments: seq<seq<Row>>, agg: AggExpr, i: nat)
    requires Indexed(schema) && HoldsSegments(schema, chunks, segments) && (agg.Sum? || agg.Avg?)
    requires ColumnIndex(schema, agg.column) == Some(i) && PathsAgree(schema, chunks, Concat(segments), agg)
    ensures ShowsSum(agg, Cells(Concat(segments), i), ChunkedSum(IntSlices(Slices(chunks, agg.column))))
  {
    SlicesOfSegments(schema, chunks, segments, agg.column);
    var cells, sum := Cells(Concat(segments), i), ChunkedSum(IntSlices(Slices(chunks, agg.column)));
    IntegersCounted(cells);
    MeansOrNullAgree(Total(Ints(cells)), |Ints(cells)|, sum, NonNull(cells));
  }

  lemma CutShows(size: nat, schema: Schema, rows: seq<Row>, agg: AggExpr, i: nat, segments: seq<seq<Row>>)
    requires Indexed(schema) && (agg.Sum? || agg.Avg?) && EveryChunkingAgrees(size, schema, rows, agg)
    requires ColumnIndex(schema, agg.column) == Some(i)
    requires IsCut(size, segments, rows) && HoldsSegments(schema, AsChunks(schema, segments), segments)
    ensures ShowsSum(agg, Cells(rows, i), ChunkedSum(IntSlices(Slices(AsChunks(schema, segments), agg.column))))
  {
    assert PathsAgree(schema, AsChunks(schema, segments), rows, agg);
    AgreementShows(schema, AsChunks(schema, segments), segments, agg, i);
  }

  lemma WholeShows(size: nat, schema: Schema, rows: seq<Row>, agg: AggExpr, i: nat)
    requires Indexed(schema) && (agg.Sum? || agg.Avg?) && EveryChunkingAgrees(size, schema, rows, agg)
    requires ColumnIndex(schema, agg.column) == Some(i) && |rows| <= size
    ensures ShowsSum(agg, Cells(rows, i), SaturatingSum(Ints(Cells(rows, i))))
  {
    WholeIsCut(size, schema, rows);
    CutShows(size, schema, rows, agg, i, Whole(rows));
    SumOfWhole(schema, rows, agg.column);
  }

  lemma OneSumShown(agg: AggExpr, cells: seq<Value>, a: i64, b: i64)
    requires Ints(cells) != [] && ShowsSum(agg, cells, a) && ShowsSum(agg, cells, b)
    ensures a == b
  {
    if agg.Avg? {
      Cancel(a, b, |Ints(cells)|);
    }
  }

  /** Where the paths agree for every cut, cuts in two add up to the row-by-row sum. */
  lemma CutInTwoAgrees(size: nat, schema: Schema, rows: seq<Row>, agg: AggExpr, i: nat, k: nat)
    requires Indexed(schema) && (agg.Sum? || agg.Avg?) && EveryChunkingAgrees(size, schema, rows, agg)
    requires ColumnIndex(schema, agg.column) == Some(i) && 0 < k < |rows| <= size && Ints(Cells(rows, i)) != []
    ensures SaturatingAdd(SaturatingSum(Ints(Cells(rows[..k], i))), SaturatingSum(Ints(Cells(rows[k..], i))))
         == SaturatingSum(Ints(Cells(rows, i)))
  {
    SplitAt(rows, k);
    AsTwoChunks(schema, rows[..k], rows[k..]);
    CutShows(size, schema, rows, agg, i, [rows[..k], rows[k..]]);
    SumOfTwoChunks(schema, rows[..k], rows[k..], agg.column);
    WholeShows(size, schema, rows, agg, i);
    OneSumShown(agg, Cells(rows, i), SaturatingSum(Ints(Cells(rows, i))),
                SaturatingAdd(SaturatingSum(Ints(Cells(rows[..k], i))), SaturatingSum(Ints(Cells(rows[k..], i)))));
  }

  lemma SplitAtEnds(xs: seq<i64>, j: nat)
    requires j == 0 || j == |xs|
    ensures SplitAgrees(xs, j)
  {
    assert if j == 0 then xs[..j] == [] && xs[j..] == xs else xs[..j] == xs && xs[j..] == [];
  }

  lemma CutBetweenInts(size: nat, schema: Schema, rows: seq<Row>, agg: AggExpr, i: nat, j: nat)
    requires Indexed(schema) && (agg.Sum? || agg.Avg?) && EveryChunkingAgrees(size, schema, rows, agg)
    requires ColumnIndex(schema, agg.column) == Some(i) && |rows| <= size && 0 < j < |Ints(Cells(rows, i))|
    ensures SplitAgrees(Ints(Cells(rows, i)), j)
  {
    var cells := Cells(rows, i);
    var k := CutOfInts(cells, j);
    assert cells[..0] == [] && cells[|rows|..] == [];
    assert 0 < k < |rows|;
    CutInTwoAgrees(size, schema, rows, agg, i, k);
    CellsOfCut(rows, i, k);
  }

  /** Where SUM or AVG agrees for every cut, so does the sum of its integers. */
  lemma IntegersSeparable(size: nat, schema: Schema, rows: seq<Row>, agg: AggExpr, i: nat)
    requires Indexed(schema) && (agg.Sum? || agg.Avg?) && EveryChunkingAgrees(size, schema, rows, agg)
    requires ColumnIndex(schema, agg.column) == Some(i) && |rows| <= size
    ensures Separable(Ints(Cells(rows, i)))
  {
    var ints := Ints(Cells(rows, i));
    forall j | 0 <= j <= |ints| ensures SplitAgrees(ints, j) {
      if j == 0 || j == |ints| {
        SplitAtEnds(ints, j);
      } else {
        CutBetweenInts(size, schema, rows, agg, i, j);
      }
    }
    AnyChunkingSumsIff(ints);
  }

  lemma AgreeingIsSafe(size: nat, schema: Schema, rows: seq<Row>, agg: AggExpr)
    requires Indexed(schema) && |rows| <= I64_MAX && |rows| <= size
    requires EveryChunkingAgrees(size, schema, rows, agg)
    ensures ChunkSafe(schema, rows, agg)
  {
    WholeIsCut(size, schema, rows);
    assert PathsAgree(schema, AsChunks(schema, Whole(rows)), rows, agg);
    if !agg.Sum? && !agg.Avg? {
      ChunksAgreeIffSafe(schema, AsChunks(schema, Whole(rows)), Whole(rows), agg);
    } else if ColumnIndex(schema, agg.column).None? {
      UnknownColumn(schema, AsChunks(schema, Whole(rows)), Whole(rows), agg);
    } else {
      WholeShows(size, schema, rows, agg, ColumnIndex(schema, agg.column).value);
      IntegersSeparable(size, schema, rows, agg, ColumnIndex(schema, agg.column).value);
    }
  }

  /** The condition under which an aggregate may be read off chunks suffices for every cut, whatever the
      chunk size, and for rows that fit one chunk it is exact: the chunk path gives the answer of the row path
      for every cut that a session can make of them exactly when the aggregate is safe on them. */
  lemma EveryChunkingAgreesIffSafe(size: nat, schema: Schema, rows: seq<Row>, agg: AggExpr)
    requires Indexed(schema) && |rows| <= I64_MAX
    ensures ChunkSafe(schema, rows, agg) ==> EveryChunkingAgrees(size, schema, rows, agg)
    ensures |rows| <= size ==> (EveryChunkingAgrees(size, schema, rows, agg) <==> ChunkSafe(schema, rows, agg))
  {
    if ChunkSafe(schema, rows, agg) {
      forall chunks, segments | HoldsSegments(schema, chunks, segments) && IsCut(size, segments, rows)
        ensures PathsAgree(schema, chunks, rows, agg)
      {
        ChunksAgreeWithRows(schema, chunks, segments, agg);
      }
    }
    if |rows| <= size && EveryChunkingAgrees(size, schema, rows, agg) {
      AgreeingIsSafe(size, schema, rows, agg);
    }
  }

  lemma {:induction false} SinglesSum(pieces: seq<seq<i64>>)
    requires forall p :: p in pieces ==> |p| <= 1
    ensures ChunkedSum(pieces) == SaturatingSum(Concat(pieces))
  {
    if pieces != [] {
      var front, last := pieces[..|pieces| - 1], pieces[|pieces| - 1];
      assert last in pieces;
      SinglesSum(front);
      OneMoreSingle(Concat(front), last);
    }
  }

  lemma SumOfOne(x: i64)
    ensures SaturatingSum([x]) == x
  {
    assert [x][..0] == [];
  }

  lemma OneMoreSingle(xs: seq<i64>, p: seq<i64>)
    requires |p| <= 1
    ensures SaturatingAdd(SaturatingSum(xs), SaturatingSum(p)) == SaturatingSum(xs + p)
  {
    if p == [] {
      assert xs + p == xs;
    } else {
      assert p == [p[0]];
      SumOfOne(p[0]);
      SumSnoc(xs, p[0]);
    }
  }

  /** For longer tables it is not exact: with chunks of one row SUM agrees for every cut of every column. */
  lemma OneRowChunksAgree(schema: Schema, rows: seq<Row>, name: string)
    requires Indexed(schema) && ColumnIndex(schema, name).Some?
    ensures EveryChunkingAgrees(1, schema, rows, Sum(name))
  {
    var i := ColumnIndex(schema, name).value;
    forall chunks, segments | HoldsSegments(schema, chunks, segments) && IsCut(1, segments, rows)
      ensures PathsAgree(schema, chunks, rows, Sum(name))
    {
      SlicesAre(schema, chunks, segments, name);
      SlicesOfSegments(schema, chunks, segments, name);
      IntsOfSlices(CellSlices(segments, i));
      OneCellSlices(segments, i);
      SinglesSum(IntSlices(CellSlices(segments, i)));
    }
  }

  lemma OneCellSlices(segments: seq<seq<Row>>, i: nat)
    requires forall s :: s in segments ==> |s| <= 1
    ensures forall p :: p in IntSlices(CellSlices(segments, i)) ==> |p| <= 1
  {
    forall n | 0 <= n < |segments| ensures |IntSlices(CellSlices(segments, i))[n]| <= 1 {
      assert segments[n] in segments;
      IntegersCounted(Cells(segments[n], i));
      FewNonNull(Cells(segments[n], i));
    }
  }

  lemma FewNonNull(cells: seq<Value>)
    ensures NonNull(cells) <= |cells|
  {
    SelectSameLength((v: Value) => !v.Null?, (v: Value) => true, cells);
    SelectAll((v: Value) => true, cells);
  }
}
