/** The columnar copy of a table, read back as rows, is the table. */
module RowColumns {
  import opened Aggregates
  import opened Catalogs
  import opened Columnar
  import opened Engine
  import opened Invariants
  import opened Plans
  import opened Refinement
  import opened Schemas
  import opened Seqs
  import opened TableStores
  import opened Values

  /** All rows of a table's chunks, chunk by chunk. */
  function AllChunkRows(chunks: seq<ColumnarChunk>): seq<Row> {
    Concat(Map((chunk: ColumnarChunk) => ChunkRows(chunk), chunks))
  }

  lemma AllChunkRowsSnoc(chunks: seq<ColumnarChunk>)
    requires chunks != []
    ensures AllChunkRows(chunks) == AllChunkRows(chunks[..|chunks| - 1]) + ChunkRows(chunks[|chunks| - 1])
  {
    var f := (chunk: ColumnarChunk) => ChunkRows(chunk);
    var n := |chunks| - 1;
    assert Map(f, chunks)[..n] == Map(f, chunks[..n]);
  }

  lemma {:induction false} SegmentsReadBack(schema: Schema, chunks: seq<ColumnarChunk>, segments: seq<seq<Row>>)
    requires Indexed(schema) && schema.columns != [] && HoldsSegments(schema, chunks, segments)
    ensures AllChunkRows(chunks) == NormalizedRows(schema, Concat(segments))
  {
    if chunks != [] {
      var n := |chunks| - 1;
      HoldsFront(schema, chunks, segments);
      SegmentsReadBack(schema, chunks[..n], segments[..n]);
      ChunkRowsAreTheBatch(schema, segments[n], chunks[n].chunkId);
      AllChunkRowsSnoc(chunks);
      MapConcat((row: Row) => Normalized(schema, row), Concat(segments[..n]), segments[n]);
    }
  }

  /** A chunk of the table: as many cells in each column as rows, between one row and the chunk size, and
      under every column name the cells at the position that the schema gives the name. */
  ghost predicate ChunkFits(cfg: Config, schema: Schema, chunk: ColumnarChunk) {
    && 1 <= chunk.rowCount <= cfg.chunkSize
    && (forall c :: c in chunk.columns ==> |c.values| == chunk.rowCount)
    && |chunk.columns| == |schema.columns|
    && forall name :: FindColumn(chunk.columns, name) ==
         match ColumnIndex(schema, name)
         case Some(i) => if i < |chunk.columns| then Some(chunk.columns[i].values) else None
         case None => None
  }

  lemma SegmentFits(cfg: Config, schema: Schema, chunk: ColumnarChunk, rows: seq<Row>)
    requires Indexed(schema) && schema.columns != [] && HoldsBatch(schema, chunk, rows) && 1 <= |rows| <= cfg.chunkSize
    ensures ChunkFits(cfg, schema, chunk)
  {
    forall name ensures FindColumn(chunk.columns, name) ==
         match ColumnIndex(schema, name)
         case Some(i) => if i < |chunk.columns| then Some(chunk.columns[i].values) else None
         case None => None
    {
      ChunkShape(schema, rows, chunk.chunkId, name);
      ColumnIndexIsLast(schema.columns, name);
    }
    ChunkShape(schema, rows, chunk.chunkId, "");
  }

  lemma ReadBack(cfg: Config, db: Db, t: TableId)
    requires Inv(cfg, db) && t in db.catalog.byId && db.catalog.byId[t].schema.columns != []
    ensures
      var schema := db.catalog.byId[t].schema;
      && AllChunkRows(ChunksOf(db.columnar, t)) + NormalizedRows(schema, BufferOf(db, t))
           == NormalizedRows(schema, Published(db, t))
      && (forall chunk :: chunk in ChunksOf(db.columnar, t) ==> ChunkFits(cfg, schema, chunk))
      && |BufferOf(db, t)| < cfg.chunkSize
  {
    var schema, chunks := db.catalog.byId[t].schema, ChunksOf(db.columnar, t);
    assert TableCovered(cfg, db, t);
    var segments :| Covers(cfg.chunkSize, schema, chunks, BufferOf(db, t), Published(db, t), segments);
    SegmentsReadBack(schema, chunks, segments);
    MapConcat((row: Row) => Normalized(schema, row), Concat(segments), BufferOf(db, t));
    forall chunk | chunk in chunks ensures ChunkFits(cfg, schema, chunk) {
      var i :| 0 <= i < |chunks| && chunks[i] == chunk;
      assert segments[i] in segments;
      SegmentFits(cfg, schema, chunk, segments[i]);
    }
  }

  /** After any run of statements, chunks read back row by row and then the buffer are, in order, the rows
      of the table that were published, each cell read at its column's position: padded with Null or cut to
      the schema where column names are distinct. After a clean run these are all rows of the scan. */
  lemma ColumnsAreTheTable(cfg: Config, catalog: CatalogState, plans: seq<PlanNode>, t: TableId)
    requires cfg.chunkSize > 0 && Consistent(catalog)
    requires t in Run(cfg, NewSession(catalog), plans).catalog.byId
    requires Run(cfg, NewSession(catalog), plans).catalog.byId[t].schema.columns != []
    ensures
      var db := Run(cfg, NewSession(catalog), plans);
      var schema := db.catalog.byId[t].schema;
      var columnRows := AllChunkRows(ChunksOf(db.columnar, t)) + NormalizedRows(schema, BufferOf(db, t));
      && columnRows == NormalizedRows(schema, Published(db, t))
      && (CleanRun(cfg, NewSession(catalog), plans) ==> columnRows == NormalizedRows(schema, TableRows(db.rows, t)))
      && (forall chunk :: chunk in ChunksOf(db.columnar, t) ==> ChunkFits(cfg, schema, chunk))
      && |BufferOf(db, t)| < cfg.chunkSize
  {
    var start := NewSession(catalog);
    NewSessionInv(cfg, catalog);
    RunKeepsInv(cfg, start, plans);
    ReadBack(cfg, Run(cfg, start, plans), t);
    if CleanRun(cfg, start, plans) {
      NothingStored(start);
      CleanRunKeepsPublished(cfg, start, plans);
      assert AllPublished(Run(cfg, start, plans), t);
    }
  }

  lemma NothingStored(db: Db)
    requires db.rows == NO_ROWS
    ensures EveryRowPublished(db)
  {
    forall t | t in db.catalog.byId ensures AllPublished(db, t) {
      UnusedTableIsEmpty(db.rows, t);
    }
  }
}
