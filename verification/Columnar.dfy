/** Column chunks: batches of rows turned into columns, and the store that keeps them by table. */
module Columnar {
  import opened Saturation
  import opened Schemas
  import opened Seqs
  import opened Values

  datatype ColumnChunk = ColumnChunk(columnName: string, values: seq<Value>)

  datatype ColumnarChunk = ColumnarChunk(chunkId: nat, columns: seq<ColumnChunk>, rowCount: nat)

  function NewChunk(id: nat, columns: seq<ColumnChunk>): ColumnarChunk {
    ColumnarChunk(id, columns, if columns == [] then 0 else |columns[0].values|)
  }

  /** The data of the first column that has the name. */
  function FindColumn(columns: seq<ColumnChunk>, name: string): Option<seq<Value>> {
    if columns == [] then None
    else if columns[0].columnName == name then Some(columns[0].values)
    else FindColumn(columns[1..], name)
  }

  /** One column read off a batch of rows; a row too short to have the cell counts as Null. */
  function Cells(rows: seq<Row>, i: nat): seq<Value> {
    Map((row: Row) => CellOrNull(row, i), rows)
  }

  function Position(schema: Schema, name: string): nat {
    match ColumnIndex(schema, name)
    case Some(i) => i
    case None => 0
  }

  /** A batch of rows as columns, in schema order. */
  function Transpose(schema: Schema, rows: seq<Row>): seq<ColumnChunk> {
    Map((c: Column) => ColumnChunk(c.name, Cells(rows, Position(schema, c.name))), schema.columns)
  }

  /** Row `i` of a chunk, read across its columns. */
  function ChunkRow(columns: seq<ColumnChunk>, i: nat): Row {
    Map((c: ColumnChunk) => CellOrNull(c.values, i), columns)
  }

  function ChunkRows(chunk: ColumnarChunk): seq<Row> {
    seq(chunk.rowCount, i requires 0 <= i < chunk.rowCount => ChunkRow(chunk.columns, i))
  }

  /** A row as a chunk shows it. */
  function Normalized(schema: Schema, row: Row): Row {
    Map((c: Column) => CellOrNull(row, Position(schema, c.name)), schema.columns)
  }

  function NormalizedRows(schema: Schema, rows: seq<Row>): seq<Row> {
    Map((row: Row) => Normalized(schema, row), rows)
  }

  /** Padded with Null or cut to `width` cells. */
  function Fitted(width: nat, row: Row): Row {
    seq(width, i requires 0 <= i < width => CellOrNull(row, i))
  }

  /** With distinct column names a chunk shows each row padded or cut to the schema. */
  lemma NormalizedIsFitted(schema: Schema, row: Row)
    requires Indexed(schema) && DistinctNames(schema.columns)
    ensures Normalized(schema, row) == Fitted(|schema.columns|, row)
  {
    forall i | 0 <= i < |schema.columns| ensures Position(schema, schema.columns[i].name) == i {
      ColumnIndexIsLast(schema.columns, schema.columns[i].name);
    }
  }

  /** The columns of a chunk have one length, the number of rows of its batch, and the lookup by name
      finds the data at the schema's position for that name, even when names repeat. */
  lemma ChunkShape(schema: Schema, rows: seq<Row>, id: nat, name: string)
    requires Indexed(schema)
    ensures
      var chunk := NewChunk(id, Transpose(schema, rows));
      && (forall c :: c in chunk.columns ==> |c.values| == |rows|)
      && (schema.columns != [] ==> chunk.rowCount == |rows|)
      && (schema.columns == [] ==> chunk.rowCount == 0)
      && FindColumn(chunk.columns, name) == match ColumnIndex(schema, name) {
           case Some(i) => Some(Cells(rows, i))
           case None => None
         }
  {
    ColumnIndexIsLast(schema.columns, name);
    FindTransposed(schema, rows, schema.columns, name);
    assert forall c :: c in Transpose(schema, rows) ==> |c.values| == |rows|;
  }

  lemma {:induction false} FindTransposed(schema: Schema, rows: seq<Row>, columns: seq<Column>, name: string)
    ensures
      var chunks := Map((c: Column) => ColumnChunk(c.name, Cells(rows, Position(schema, c.name))), columns);
      FindColumn(chunks, name) ==
        if exists i :: 0 <= i < |columns| && columns[i].name == name
        then Some(Cells(rows, Position(schema, name))) else None
  {
    var f := (c: Column) => ColumnChunk(c.name, Cells(rows, Position(schema, c.name)));
    if columns != [] && columns[0].name != name {
      FindTransposed(schema, rows, columns[1..], name);
      assert Map(f, columns)[1..] == Map(f, columns[1..]);
      if i :| 0 <= i < |columns| && columns[i].name == name {
        assert columns[1..][i - 1].name == name;
      }
    }
  }

  /** Reading a chunk row by row gives back the batch. */
  lemma ChunkRowsAreTheBatch(schema: Schema, rows: seq<Row>, id: nat)
    requires Indexed(schema) && schema.columns != []
    ensures ChunkRows(NewChunk(id, Transpose(schema, rows))) == NormalizedRows(schema, rows)
  {
    var chunk := NewChunk(id, Transpose(schema, rows));
    ChunkShape(schema, rows, id, "");
    forall i | 0 <= i < |rows| ensures ChunkRows(chunk)[i] == NormalizedRows(schema, rows)[i] {
      assert ChunkRow(chunk.columns, i) == Normalized(schema, rows[i]);
    }
  }

  datatype ColumnarState = ColumnarState(nextChunkId: nat, chunks: map<TableId, seq<ColumnarChunk>>)

  const NO_CHUNKS := ColumnarState(0, map[])

  function ChunksOf(s: ColumnarState, t: TableId): seq<ColumnarChunk> {
    if t in s.chunks then s.chunks[t] else []
  }

  function AddChunk(s: ColumnarState, t: TableId, chunk: ColumnarChunk): ColumnarState {
    s.(chunks := s.chunks[t := ChunksOf(s, t) + [chunk]])
  }

  function DropChunks(s: ColumnarState, t: TableId): ColumnarState {
    s.(chunks := s.chunks - {t})
  }

  /** The Int64 payloads of a column, in order. */
  function Ints(values: seq<Value>): seq<i64> {
    if values == [] then []
    else if values[|values| - 1].Int64? then Ints(values[..|values| - 1]) + [values[|values| - 1].i]
    else Ints(values[..|values| - 1])
  }

  lemma {:induction false} IntsConcat(a: seq<Value>, b: seq<Value>)
    ensures Ints(a + b) == Ints(a) + Ints(b)
  {
    if b == [] {
      assert a + b == a;
    } else {
      assert (a + b)[..|a + b| - 1] == a + b[..|b| - 1];
      IntsConcat(a, b[..|b| - 1]);
    }
  }

  function NonNull(values: seq<Value>): nat {
    |Select((v: Value) => !v.Null?, values)|
  }

  /** The running minimum of the loops, which starts at MAX. */
  function MinOf(xs: seq<i64>): (m: i64)
    ensures forall x :: x in xs ==> m <= x
    ensures m in xs || m == I64_MAX
  {
    if xs == [] then I64_MAX
    else
      assert xs == xs[..|xs| - 1] + [xs[|xs| - 1]];
      var m := MinOf(xs[..|xs| - 1]);
      if xs[|xs| - 1] < m then xs[|xs| - 1] else m
  }

  function MaxOf(xs: seq<i64>): (m: i64)
    ensures forall x :: x in xs ==> x <= m
    ensures m in xs || m == I64_MIN
  {
    if xs == [] then I64_MIN
    else
      assert xs == xs[..|xs| - 1] + [xs[|xs| - 1]];
      var m := MaxOf(xs[..|xs| - 1]);
      if xs[|xs| - 1] > m then xs[|xs| - 1] else m
  }

  lemma {:induction false} MinOfConcat(a: seq<i64>, b: seq<i64>)
    ensures MinOf(a + b) == if MinOf(b) < MinOf(a) then MinOf(b) else MinOf(a)
  {
    if b == [] {
      assert a + b == a;
    } else {
      assert (a + b)[..|a + b| - 1] == a + b[..|b| - 1];
      MinOfConcat(a, b[..|b| - 1]);
    }
  }

  lemma {:induction false} MaxOfConcat(a: seq<i64>, b: seq<i64>)
    ensures MaxOf(a + b) == if MaxOf(b) > MaxOf(a) then MaxOf(b) else MaxOf(a)
  {
    if b == [] {
      assert a + b == a;
    } else {
      assert (a + b)[..|a + b| - 1] == a + b[..|b| - 1];
      MaxOfConcat(a, b[..|b| - 1]);
    }
  }

  method SumI64Slice(values: seq<Value>) returns (r: Option<i64>)
    ensures r == if Ints(values) == [] then None else Some(SaturatingSum(Ints(values)))
  {
    var sum: i64, any := 0, false;
    for k := 0 to |values|
      invariant sum == SaturatingSum(Ints(values[..k]))
      invariant any <==> Ints(values[..k]) != []
    {
      Snoc(values[..k], values[k]);
      assert values[..k + 1] == values[..k] + [values[k]];
      if values[k].Int64? {
        Snoc(Ints(values[..k]), values[k].i);
        sum := SaturatingAdd(sum, values[k].i);
        any := true;
      }
    }
    assert values[..|values|] == values;
    r := if any then Some(sum) else None;
  }

  method MinMaxI64Slice(values: seq<Value>) returns (r: Option<(i64, i64)>)
    ensures r == if Ints(values) == [] then None else Some((MinOf(Ints(values)), MaxOf(Ints(values))))
  {
    var min: i64, max: i64, any := I64_MAX, I64_MIN, false;
    for k := 0 to |values|
      invariant min == MinOf(Ints(values[..k])) && max == MaxOf(Ints(values[..k]))
      invariant any <==> Ints(values[..k]) != []
    {
      Snoc(values[..k], values[k]);
      assert values[..k + 1] == values[..k] + [values[k]];
      if values[k].Int64? {
        var x := values[k].i;
        Snoc(Ints(values[..k]), x);
        min := if x < min then x else min;
        max := if x > max then x else max;
        any := true;
      }
    }
    assert values[..|values|] == values;
    r := if any then Some((min, max)) else None;
  }

  class ColumnarStore {
    var nextChunk: nat
    var chunks: map<TableId, seq<ColumnarChunk>>

    constructor ()
      ensures State() == NO_CHUNKS
    {
      nextChunk := 0;
      chunks := map[];
    }

    ghost function State(): ColumnarState
      reads this
    {
      ColumnarState(nextChunk, chunks)
    }

    method InsertChunk(t: TableId, chunk: ColumnarChunk)
      modifies this
      ensures State() == AddChunk(old(State()), t, chunk)
    {
      var before := Chunks(t);
      chunks := chunks[t := before + [chunk]];
    }

    method Chunks(t: TableId) returns (r: seq<ColumnarChunk>)
      ensures r == ChunksOf(State(), t)
    {
      r := if t in chunks then chunks[t] else [];
    }

    method NextChunkId() returns (id: nat)
      modifies this
      ensures id == old(nextChunk) && nextChunk == id + 1 && chunks == old(chunks)
    {
      id := nextChunk;
      nextChunk := nextChunk + 1;
    }

    method DropTable(t: TableId)
      modifies this
      ensures State() == DropChunks(old(State()), t)
    {
      chunks := chunks - {t};
    }
  }
}
