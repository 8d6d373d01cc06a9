/** SUM, COUNT, AVG, MIN and MAX over rows and over column chunks. */
module Aggregates {
  import opened Columnar
  import opened ColumnSums
  import opened Means
  import opened Plans
  import opened Saturation
  import opened Schemas
  import opened Seqs
  import opened Values

  /** An aggregate of one column: integers count, other values are passed over, except by COUNT. */
  function CellsAggregate(cells: seq<Value>, agg: AggExpr): Value {
    var ints := Ints(cells);
    match agg
    case Count(_) => Int64(AsI64(NonNull(cells)))
    case CountStar => Int64(AsI64(|cells|))
    case Sum(_) => if ints == [] then Null else Int64(SaturatingSum(ints))
    case Avg(_) => MeanOrNull(Total(ints), |ints|)
    case Min(_) => if ints == [] then Null else Int64(MinOf(ints))
    case Max(_) => if ints == [] then Null else Int64(MaxOf(ints))
  }

  function RowAggregate(rows: seq<Row>, schema: Schema, agg: AggExpr): Result<Value> {
    if agg.CountStar? then Success(Int64(AsI64(|rows|)))
    else
      match ColumnIndex(schema, agg.column)
      case Some(i) => Success(CellsAggregate(Cells(rows, i), agg))
      case None => Failure(ColumnNotFound(agg.column))
  }

  /** What the row loop has gathered from the cells so far. */
  ghost predicate CellTotals(cells: seq<Value>, sum: i64, total: int, count: nat, nonNull: nat, min: i64, max: i64) {
    var ints := Ints(cells);
    && sum == SaturatingSum(ints) && total == Total(ints) && count == |ints|
    && nonNull == NonNull(cells) && min == MinOf(ints) && max == MaxOf(ints)
  }

  lemma AddCell(cells: seq<Value>, v: Value, sum: i64, total: int, count: nat, nonNull: nat, min: i64, max: i64)
    requires CellTotals(cells, sum, total, count, nonNull, min, max)
    ensures v.Null? ==> CellTotals(cells + [v], sum, total, count, nonNull, min, max)
    ensures !v.Null? && !v.Int64? ==> CellTotals(cells + [v], sum, total, count, nonNull + 1, min, max)
    ensures v.Int64? ==>
      CellTotals(cells + [v], SaturatingAdd(sum, v.i), total + v.i, count + 1, nonNull + 1,
                 if v.i < min then v.i else min, if v.i > max then v.i else max)
  {
    Snoc(cells, v);
    if v.Int64? {
      Snoc(Ints(cells), v.i);
    }
  }

  /** The loop over rows; a row too short to have the cell is skipped. */
  method AggregateRows(rows: seq<Row>, schema: Schema, agg: AggExpr) returns (r: Result<Value>)
    ensures r == RowAggregate(rows, schema, agg)
  {
    if agg.CountStar? {
      return Success(Int64(AsI64(|rows|)));
    }
    var index := ColumnIndex(schema, agg.column);
    if index.None? {
      return Failure(ColumnNotFound(agg.column));
    }
    var i := index.value;
    ghost var cells := Cells(rows, i);
    var sum: i64, total, count, nonNull := 0, 0, 0, 0;
    var min: i64, max: i64 := I64_MAX, I64_MIN;
    for k := 0 to |rows|
      invariant CellTotals(cells[..k], sum, total, count, nonNull, min, max)
    {
      assert cells[..k + 1] == cells[..k] + [cells[k]];
      AddCell(cells[..k], cells[k], sum, total, count, nonNull, min, max);
      if i < |rows[k]| && !rows[k][i].Null? {
        nonNull := nonNull + 1;
        if rows[k][i].Int64? {
          var x := rows[k][i].i;
          sum := SaturatingAdd(sum, x);
          total := total + x;
          count := count + 1;
          min := if x < min then x else min;
          max := if x > max then x else max;
        }
      }
    }
    assert cells[..|rows|] == cells;
    match agg {
      case Count(_) => r := Success(Int64(AsI64(nonNull)));
      case Sum(_) => r := Success(if count == 0 then Null else Int64(sum));
      case Avg(_) => r := Success(MeanOrNull(total, count));
      case Min(_) => r := Success(if count == 0 then Null else Int64(min));
      case Max(_) => r := Success(if count == 0 then Null else Int64(max));
    }
  }

  /** The data of one column in each chunk that has it. */
  function Slices(chunks: seq<ColumnarChunk>, name: string): seq<seq<Value>> {
    if chunks == [] then []
    else
      var before := Slices(chunks[..|chunks| - 1], name);
      match FindColumn(chunks[|chunks| - 1].columns, name)
      case Some(slice) => before + [slice]
      case None => before
  }

  function TotalRows(chunks: seq<ColumnarChunk>): nat {
    if chunks == [] then 0 else TotalRows(chunks[..|chunks| - 1]) + chunks[|chunks| - 1].rowCount
  }

  function IntSlices(slices: seq<seq<Value>>): seq<seq<i64>> {
    Map((s: seq<Value>) => Ints(s), slices)
  }

  /** The aggregate read off chunks: the sum saturates chunk by chunk, AVG divides it by the number of
      non-null cells, and a minimum of MAX or a maximum of MIN reads as no value. */
  function ChunkAggregate(chunks: seq<ColumnarChunk>, agg: AggExpr): Value {
    if agg.CountStar? then Int64(AsI64(TotalRows(chunks)))
    else
      var slices := Slices(chunks, agg.column);
      var cells := Concat(slices);
      var ints := Ints(cells);
      match agg
      case Count(_) => Int64(AsI64(NonNull(cells)))
      case Sum(_) => if ints == [] then Null else Int64(ChunkedSum(IntSlices(slices)))
      case Avg(_) => MeanOrNull(ChunkedSum(IntSlices(slices)), NonNull(cells))
      case Min(_) => if MinOf(ints) == I64_MAX then Null else Int64(MinOf(ints))
      case Max(_) => if MaxOf(ints) == I64_MIN then Null else Int64(MaxOf(ints))
  }

  method CountChunkRows(chunks: seq<ColumnarChunk>) returns (n: nat)
    ensures n == TotalRows(chunks)
  {
    n := 0;
    for k := 0 to |chunks|
      invariant n == TotalRows(chunks[..k])
    {
      assert chunks[..k + 1][..k] == chunks[..k];
      n := n + chunks[k].rowCount;
    }
    assert chunks[..|chunks|] == chunks;
  }

  method AggregateChunks(chunks: seq<ColumnarChunk>, agg: AggExpr) returns (v: Value)
    ensures v == ChunkAggregate(chunks, agg)
  {
    if agg.CountStar? {
      var n := CountChunkRows(chunks);
      return Int64(AsI64(n));
    }
    var sum: i64, count: nat, any := 0, 0, false;
    var min: i64, max: i64 := I64_MAX, I64_MIN;
    ghost var name := agg.column;
    for k := 0 to |chunks|
      invariant SliceTotals(Slices(chunks[..k], name), sum, count, any, min, max)
    {
      SlicesOneMore(chunks, k, name);
      var slice := FindColumn(chunks[k].columns, agg.column);
      if slice.Some? {
        AddSlice(Slices(chunks[..k], name), slice.value, sum, count, any, min, max);
        NoIntsNoExtremes(Ints(slice.value));
        var s := SumI64Slice(slice.value);
        if s.Some? {
          sum := SaturatingAdd(sum, s.value);
          any := true;
        }
        count := count + NonNull(slice.value);
        var m := MinMaxI64Slice(slice.value);
        if m.Some? {
          min := if m.value.0 < min then m.value.0 else min;
          max := if m.value.1 > max then m.value.1 else max;
        }
      }
    }
    assert chunks[..|chunks|] == chunks;
    FinishedAnswers(chunks, agg, sum, count, any, min, max);
    v := Finished(agg, sum, count, any, min, max);
  }

  /** The answer read off what the chunk loop has gathered. */
  function Finished(agg: AggExpr, sum: i64, count: nat, any: bool, min: i64, max: i64): Value
    requires !agg.CountStar?
  {
    match agg
    case Count(_) => Int64(AsI64(count))
    case Sum(_) => if any then Int64(sum) else Null
    case Avg(_) => MeanOrNull(sum, count)
    case Min(_) => if any && min != I64_MAX then Int64(min) else Null
    case Max(_) => if any && max != I64_MIN then Int64(max) else Null
  }

  lemma FinishedAnswers(chunks: seq<ColumnarChunk>, agg: AggExpr, sum: i64, count: nat, any: bool, min: i64, max: i64)
    requires !agg.CountStar? && SliceTotals(Slices(chunks, agg.column), sum, count, any, min, max)
    ensures Finished(agg, sum, count, any, min, max) == ChunkAggregate(chunks, agg)
  {
  }

  /** What the chunk loop has gathered from the slices so far. */
  ghost predicate SliceTotals(slices: seq<seq<Value>>, sum: i64, count: nat, any: bool, min: i64, max: i64) {
    var ints := Ints(Concat(slices));
    && sum == ChunkedSum(IntSlices(slices)) && count == NonNull(Concat(slices))
    && (any <==> ints != []) && min == MinOf(ints) && max == MaxOf(ints)
  }

  lemma SlicesOneMore(chunks: seq<ColumnarChunk>, k: nat, name: string)
    requires k < |chunks|
    ensures Slices(chunks[..k + 1], name) ==
      match FindColumn(chunks[k].columns, name) {
        case Some(slice) => Slices(chunks[..k], name) + [slice]
        case None => Slices(chunks[..k], name)
      }
  {
    assert chunks[..k + 1][..k] == chunks[..k];
  }

  lemma SumWithSlice(slices: seq<seq<Value>>, s: seq<Value>)
    ensures ChunkedSum(IntSlices(slices + [s])) == SaturatingAdd(ChunkedSum(IntSlices(slices)), SaturatingSum(Ints(s)))
  {
    var before := IntSlices(slices);
    assert IntSlices(slices + [s]) == before + [Ints(s)];
    Snoc(before, Ints(s));
  }

  lemma CellsWithSlice(slices: seq<seq<Value>>, s: seq<Value>)
    ensures Ints(Concat(slices + [s])) == Ints(Concat(slices)) + Ints(s)
    ensures NonNull(Concat(slices + [s])) == NonNull(Concat(slices)) + NonNull(s)
  {
    Snoc(slices, s);
    IntsConcat(Concat(slices), s);
    SelectConcat((v: Value) => !v.Null?, Concat(slices), s);
  }

  lemma NoIntsNoExtremes(xs: seq<i64>)
    ensures xs == [] ==> MinOf(xs) == I64_MAX && MaxOf(xs) == I64_MIN
  {
  }

  lemma AddSlice(slices: seq<seq<Value>>, s: seq<Value>, sum: i64, count: nat, any: bool, min: i64, max: i64)
    requires SliceTotals(slices, sum, count, any, min, max)
    ensures SliceTotals(slices + [s], SaturatingAdd(sum, SaturatingSum(Ints(s))), count + NonNull(s),
              any || Ints(s) != [],
              if MinOf(Ints(s)) < min then MinOf(Ints(s)) else min,
              if MaxOf(Ints(s)) > max then MaxOf(Ints(s)) else max)
    ensures Ints(s) == [] ==> SaturatingAdd(sum, SaturatingSum(Ints(s))) == sum
  {
    SumWithSlice(slices, s);
    CellsWithSlice(slices, s);
    MinOfConcat(Ints(Concat(slices)), Ints(s));
    MaxOfConcat(Ints(Concat(slices)), Ints(s));
  }

  // ----- the two paths compared

  /** `chunks` hold the batches of rows `segments`, in order. */
  ghost predicate HoldsSegments(schema: Schema, chunks: seq<ColumnarChunk>, segments: seq<seq<Row>>) {
    && |chunks| == |segments|
    && forall i :: 0 <= i < |chunks| ==> HoldsBatch(schema, chunks[i], segments[i])
  }

  ghost predicate HoldsBatch(schema: Schema, chunk: ColumnarChunk, rows: seq<Row>) {
    chunk == NewChunk(chunk.chunkId, Transpose(schema, rows))
  }

  function CellSlices(segments: seq<seq<Row>>, i: nat): seq<seq<Value>> {
    Map((rows: seq<Row>) => Cells(rows, i), segments)
  }

  lemma {:induction false} ConcatCellSlices(segments: seq<seq<Row>>, i: nat)
    ensures Concat(CellSlices(segments, i)) == Cells(Concat(segments), i)
  {
    if segments != [] {
      var n := |segments| - 1;
      ConcatCellSlices(segments[..n], i);
      assert CellSlices(segments, i)[..n] == CellSlices(segments[..n], i);
      MapConcat((row: Row) => CellOrNull(row, i), Concat(segments[..n]), segments[n]);
    }
  }

  lemma HoldsFront(schema: Schema, chunks: seq<ColumnarChunk>, segments: seq<seq<Row>>)
    requires HoldsSegments(schema, chunks, segments) && chunks != []
    ensures var n := |chunks| - 1;
      HoldsSegments(schema, chunks[..n], segments[..n]) && HoldsBatch(schema, chunks[n], segments[n])
  {
  }

  lemma HoldsOneMore(schema: Schema, chunks: seq<ColumnarChunk>, segments: seq<seq<Row>>, chunk: ColumnarChunk,
                     rows: seq<Row>)
    requires HoldsSegments(schema, chunks, segments) && HoldsBatch(schema, chunk, rows)
    ensures HoldsSegments(schema, chunks + [chunk], segments + [rows])
  {
  }

  lemma FoundInBatch(schema: Schema, chunk: ColumnarChunk, rows: seq<Row>, name: string)
    requires Indexed(schema) && HoldsBatch(schema, chunk, rows)
    ensures FindColumn(chunk.columns, name) ==
      match ColumnIndex(schema, name) { case Some(i) => Some(Cells(rows, i)) case None => None }
    ensures chunk.rowCount == if schema.columns == [] then 0 else |rows|
  {
    ChunkShape(schema, rows, chunk.chunkId, name);
  }

  lemma CellSlicesOfFront(segments: seq<seq<Row>>, i: nat)
    requires segments != []
    ensures var n := |segments| - 1;
      CellSlices(segments, i) == CellSlices(segments[..n], i) + [Cells(segments[n], i)]
  {
  }

  lemma {:induction false} SlicesAre(schema: Schema, chunks: seq<ColumnarChunk>, segments: seq<seq<Row>>, name: string)
    requires Indexed(schema) && HoldsSegments(schema, chunks, segments)
    ensures Slices(chunks, name) ==
      match ColumnIndex(schema, name) { case Some(i) => CellSlices(segments, i) case None => [] }
  {
    if chunks != [] {
      var n := |chunks| - 1;
      HoldsFront(schema, chunks, segments);
      SlicesAre(schema, chunks[..n], segments[..n], name);
      FoundInBatch(schema, chunks[n], segments[n], name);
      if ColumnIndex(schema, name).Some? {
        CellSlicesOfFront(segments, ColumnIndex(schema, name).value);
      }
    }
  }

  lemma SlicesOfSegments(schema: Schema, chunks: seq<ColumnarChunk>, segments: seq<seq<Row>>, name: string)
    requires Indexed(schema) && HoldsSegments(schema, chunks, segments)
    ensures match ColumnIndex(schema, name)
      case Some(i) => Concat(Slices(chunks, name)) == Cells(Concat(segments), i)
      case None => Slices(chunks, name) == []
  {
    SlicesAre(schema, chunks, segments, name);
    if ColumnIndex(schema, name).Some? {
      ConcatCellSlices(segments, ColumnIndex(schema, name).value);
    }
  }

  lemma {:induction false} TotalRowsOfSegments(schema: Schema, chunks: seq<ColumnarChunk>, segments: seq<seq<Row>>)
    requires Indexed(schema) && HoldsSegments(schema, chunks, segments)
    ensures TotalRows(chunks) == if schema.columns == [] then 0 else |Concat(segments)|
  {
    if chunks != [] {
      var n := |chunks| - 1;
      HoldsFront(schema, chunks, segments);
      TotalRowsOfSegments(schema, chunks[..n], segments[..n]);
      FoundInBatch(schema, chunks[n], segments[n], "");
    }
  }

  lemma {:induction false} IntsOfSlices(slices: seq<seq<Value>>)
    ensures Concat(IntSlices(slices)) == Ints(Concat(slices))
  {
    if slices != [] {
      var n := |slices| - 1;
      IntsOfSlices(slices[..n]);
      assert IntSlices(slices)[..n] == IntSlices(slices[..n]);
      IntsConcat(Concat(slices[..n]), slices[n]);
    }
  }

  predicate IntegersOrNull(cells: seq<Value>) {
    forall v :: v in cells ==> v.Int64? || v.Null?
  }

  lemma {:induction false} IntegersCounted(cells: seq<Value>)
    ensures NonNull(cells) >= |Ints(cells)|
    ensures NonNull(cells) == |Ints(cells)| <==> IntegersOrNull(cells)
  {
    if cells != [] {
      assert cells == cells[..|cells| - 1] + [cells[|cells| - 1]];
      IntegersCounted(cells[..|cells| - 1]);
    }
  }

  /** The chunk path divides the saturating sum by the number of cells that are not null, the row path the
      exact sum by the number of integers: the quotients must be equal. */
  predicate AverageKept(ints: seq<i64>, nonNull: nat) {
    && SaturatingSum(ints) * |ints| == Total(ints) * nonNull
    && (ints == [] ==> nonNull == 0)
  }

  /** When an aggregate may be read off chunks: the column must exist, SUM must not depend on chunk
      boundaries, AVG must besides keep its quotient, and MIN and MAX must not be the value that the chunk
      path takes for "none". */
  ghost predicate ChunkSafe(schema: Schema, rows: seq<Row>, agg: AggExpr) {
    if agg.CountStar? then schema.columns != [] || rows == []
    else
      ColumnIndex(schema, agg.column).Some? &&
      var cells := Cells(rows, ColumnIndex(schema, agg.column).value);
      var ints := Ints(cells);
      match agg {
        case Count(_) => true
        case Sum(_) => Separable(ints)
        case Avg(_) => Separable(ints) && AverageKept(ints, NonNull(cells))
        case Min(_) => ints == [] || MinOf(ints) < I64_MAX
        case Max(_) => ints == [] || MaxOf(ints) > I64_MIN
      }
  }

  /** The chunk path refines the row path, wherever the chunks end. */
  lemma ChunksAgreeWithRows(schema: Schema, chunks: seq<ColumnarChunk>, segments: seq<seq<Row>>, agg: AggExpr)
    requires Indexed(schema) && HoldsSegments(schema, chunks, segments)
    requires ChunkSafe(schema, Concat(segments), agg)
    ensures RowAggregate(Concat(segments), schema, agg) == Success(ChunkAggregate(chunks, agg))
  {
    if agg.CountStar? {
      TotalRowsOfSegments(schema, chunks, segments);
    } else {
      SlicesOfSegments(schema, chunks, segments, agg.column);
      var slices := Slices(chunks, agg.column);
      var ints := Ints(Concat(slices));
      IntsOfSlices(slices);
      if agg.Sum? {
        SeparableChunks(ints, IntSlices(slices));
      } else if agg.Avg? {
        SeparableChunks(ints, IntSlices(slices));
        IntegersCounted(Concat(slices));
        MeansOrNullAgree(Total(ints), |ints|, SaturatingSum(ints), NonNull(Concat(slices)));
      }
    }
  }

  /** For COUNT, MIN, MAX and COUNT(*) the condition is exact: without it the two paths differ. */
  lemma ChunksAgreeIffSafe(schema: Schema, chunks: seq<ColumnarChunk>, segments: seq<seq<Row>>, agg: AggExpr)
    requires Indexed(schema) && HoldsSegments(schema, chunks, segments)
    requires !agg.Sum? && !agg.Avg? && |Concat(segments)| <= I64_MAX
    ensures RowAggregate(Concat(segments), schema, agg) == Success(ChunkAggregate(chunks, agg))
       <==> ChunkSafe(schema, Concat(segments), agg)
  {
    if agg.CountStar? {
      TotalRowsOfSegments(schema, chunks, segments);
    } else {
      SlicesOfSegments(schema, chunks, segments, agg.column);
    }
  }

  /** A column that the table does not have is an error of the row path; the chunk path answers with
      no rows counted or no value. */
  lemma UnknownColumn(schema: Schema, chunks: seq<ColumnarChunk>, segments: seq<seq<Row>>, agg: AggExpr)
    requires Indexed(schema) && HoldsSegments(schema, chunks, segments)
    requires !agg.CountStar? && ColumnIndex(schema, agg.column).None?
    ensures RowAggregate(Concat(segments), schema, agg) == Failure(ColumnNotFound(agg.column))
    ensures ChunkAggregate(chunks, agg) == if agg.Count? then Int64(0) else Null
  {
    SlicesOfSegments(schema, chunks, segments, agg.column);
  }
}
