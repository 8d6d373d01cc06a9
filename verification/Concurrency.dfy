/** Inserting and flushing threads over shared stores, one lock or atomic operation at a time, in any
    interleaving. */
module Concurrency {
  import opened Aggregates
  import opened BTreeIndexes
  import opened Catalogs
  import opened Columnar
  import opened Engine
  import opened IndexKeys
  import opened Invariants
  import opened Plans
  import opened Schemas
  import opened Seqs
  import opened TableStores
  import opened Values

  /** Where a thread is. `rows` are the rows it has yet to insert, the one in hand first. */
  datatype Thread =
    | Idle
    | Inserting(meta: TableMeta, rows: seq<Row>)
    | Numbered(meta: TableMeta, rid: RowId, rows: seq<Row>)  // has a row id, has not stored the row
    | Stored(meta: TableMeta, rid: RowId, rows: seq<Row>)  // has stored the row, has not indexed it
    | Posted(meta: TableMeta, rows: seq<Row>)  // has indexed the row, has not pushed it
    | Holding(meta: TableMeta, batch: seq<Row>, rows: seq<Row>)  // has taken the buffer, has no chunk id
    | Publishing(meta: TableMeta, batch: seq<Row>, id: nat, rows: seq<Row>)  // has a chunk id
    | Flushing(meta: TableMeta)

  datatype System = System(db: Db, threads: seq<Thread>)

  /** One atomic step of a thread that is well formed. */
  function StepThread(cfg: Config, db: Db, th: Thread): (Db, Thread)
    requires (th.Numbered? || th.Stored? || th.Posted?) ==> th.rows != []
  {
    match th
    case Idle => (db, Idle)
    case Inserting(meta, rows) =>
      if rows == [] then (db, Idle)
      else (db.(rows := db.rows.(next := db.rows.next + 1)), Numbered(meta, db.rows.next, rows))
    case Numbered(meta, rid, rows) =>
      (db.(rows := db.rows.(data := db.rows.data[(meta.id, rid) := rows[0]])), Stored(meta, rid, rows))
    case Stored(meta, rid, rows) =>
      (match PostRow(db, meta, rid, rows[0])
       case Success(indexes) => (db.(indexes := indexes), Posted(meta, rows))
       case Failure(_) => (db, Idle))
    case Posted(meta, rows) =>
      var batch := BufferOf(db, meta.id) + [rows[0]];
      if |batch| < cfg.chunkSize then (db.(buffer := db.buffer[meta.id := batch]), Inserting(meta, rows[1..]))
      else (db.(buffer := db.buffer[meta.id := []]), Holding(meta, batch, rows[1..]))
    case Holding(meta, batch, rows) =>
      var id := db.columnar.nextChunkId;
      (db.(columnar := db.columnar.(nextChunkId := id + 1)), Publishing(meta, batch, id, rows))
    case Publishing(meta, batch, id, rows) =>
      (db.(columnar := AddChunk(db.columnar, meta.id, NewChunk(id, Transpose(meta.schema, batch)))),
       Inserting(meta, rows))
    case Flushing(meta) =>
      if BufferOf(db, meta.id) == [] then (db, Idle)
      else (db.(buffer := db.buffer[meta.id := []]), Holding(meta, BufferOf(db, meta.id), []))
  }

  // ----- one thread alone

  predicate HasRow(th: Thread) {
    (th.Numbered? || th.Stored? || th.Posted?) ==> th.rows != []
  }

  /** `n` steps of a thread that no other thread comes between. */
  function Alone(cfg: Config, db: Db, th: Thread, n: nat): (Db, Thread)
    requires HasRow(th)
    decreases n
  {
    if n == 0 then (db, th)
    else
      var (db', th') := StepThread(cfg, db, th);
      Alone(cfg, db', th', n - 1)
  }

  lemma {:induction false} AloneThen(cfg: Config, db: Db, th: Thread, m: nat, n: nat)
    requires HasRow(th)
    ensures HasRow(Alone(cfg, db, th, m).1)
    ensures Alone(cfg, db, th, m + n) == var (db', th') := Alone(cfg, db, th, m); Alone(cfg, db', th', n)
    decreases m
  {
    if m > 0 {
      var (db', th') := StepThread(cfg, db, th);
      AloneThen(cfg, db', th', m - 1, n);
    }
  }

  lemma StoreAlone(cfg: Config, db: Db, meta: TableMeta, rows: seq<Row>)
    requires rows != []
    ensures Alone(cfg, db, Inserting(meta, rows), 2)
         == (db.(rows := InsertRow(db.rows, meta.id, rows[0])), Stored(meta, db.rows.next, rows))
  {
    var th := Inserting(meta, rows);
    var (db1, th1) := StepThread(cfg, db, th);
    var (db2, th2) := StepThread(cfg, db1, th1);
    assert Alone(cfg, db2, th2, 0) == (db2, th2);
    assert Alone(cfg, db1, th1, 1) == (db2, th2);
  }

  lemma PostAlone(cfg: Config, db: Db, meta: TableMeta, rows: seq<Row>)
    requires rows != []
    ensures
      var stored := db.(rows := InsertRow(db.rows, meta.id, rows[0]));
      Alone(cfg, stored, Stored(meta, db.rows.next, rows), 1) ==
        match IndexRow(db, meta, rows[0])
        case Success(indexes) => (stored.(indexes := indexes), Posted(meta, rows))
        case Failure(_) => (stored, Idle)
  {
    var stored := db.(rows := InsertRow(db.rows, meta.id, rows[0]));
    var (db1, th1) := StepThread(cfg, stored, Stored(meta, db.rows.next, rows));
    assert Alone(cfg, db1, th1, 0) == (db1, th1);
  }

  lemma PushAlone(cfg: Config, db: Db, meta: TableMeta, rows: seq<Row>) returns (n: nat)
    requires rows != []
    ensures Alone(cfg, db, Posted(meta, rows), n)
         == (PushRow(cfg, db, meta.id, meta.schema, rows[0]), Inserting(meta, rows[1..]))
  {
    var (db1, th1) := StepThread(cfg, db, Posted(meta, rows));
    assert Alone(cfg, db1, th1, 0) == (db1, th1);
    if th1.Inserting? {
      n := 1;
    } else {
      var (db2, th2) := StepThread(cfg, db1, th1);
      var (db3, th3) := StepThread(cfg, db2, th2);
      assert Alone(cfg, db3, th3, 0) == (db3, th3);
      assert Alone(cfg, db2, th2, 1) == (db3, th3);
      assert Alone(cfg, db1, th1, 2) == (db3, th3);
      n := 3;
    }
  }

  /** Left alone, a thread inserts one row as the session does. */
  lemma InsertOneAlone(cfg: Config, db: Db, meta: TableMeta, rows: seq<Row>) returns (n: nat)
    requires rows != []
    ensures
      var (db', error) := InsertOne(cfg, db, meta, rows[0]);
      Alone(cfg, db, Inserting(meta, rows), n) == (db', if error.None? then Inserting(meta, rows[1..]) else Idle)
  {
    var th := Inserting(meta, rows);
    StoreAlone(cfg, db, meta, rows);
    PostAlone(cfg, db, meta, rows);
    AloneThen(cfg, db, th, 2, 1);
    n := 3;
    match IndexRow(db, meta, rows[0])
    case Failure(_) =>
    case Success(indexes) =>
      var stored := db.(rows := InsertRow(db.rows, meta.id, rows[0]));
      var m := PushAlone(cfg, stored.(indexes := indexes), meta, rows);
      AloneThen(cfg, db, th, 3, m);
      n := 3 + m;
  }

  /** Left alone, a thread carries out its INSERT exactly as the sequential session does. */
  lemma {:induction false} InsertAlone(cfg: Config, db: Db, meta: TableMeta, rows: seq<Row>, count: nat)
    returns (n: nat)
    ensures Alone(cfg, db, Inserting(meta, rows), n) == (InsertFrom(cfg, db, meta, rows, count).0, Idle)
    decreases |rows|
  {
    var th := Inserting(meta, rows);
    if rows == [] {
      assert Alone(cfg, db, Idle, 0) == (db, Idle);
      n := 1;
    } else {
      n := InsertOneAlone(cfg, db, meta, rows);
      var (db', error) := InsertOne(cfg, db, meta, rows[0]);
      if error.None? {
        var m := InsertAlone(cfg, db', meta, rows[1..], count + 1);
        AloneThen(cfg, db, th, n, m);
        n := n + m;
      }
    }
  }

  /** Left alone, a flushing thread flushes as the session does. */
  lemma FlushAlone(cfg: Config, db: Db, meta: TableMeta) returns (n: nat)
    ensures Alone(cfg, db, Flushing(meta), n) == (FlushBuffer(db, meta.id, meta.schema), Idle)
  {
    var (db1, th1) := StepThread(cfg, db, Flushing(meta));
    assert Alone(cfg, db1, th1, 0) == (db1, th1);
    if th1.Idle? {
      n := 1;
    } else {
      var (db2, th2) := StepThread(cfg, db1, th1);
      var (db3, th3) := StepThread(cfg, db2, th2);
      var (db4, th4) := StepThread(cfg, db3, th3);
      assert Alone(cfg, db4, th4, 0) == (db4, th4);
      assert Alone(cfg, db3, th3, 1) == (db4, th4);
      assert Alone(cfg, db2, th2, 2) == (db4, th4);
      assert Alone(cfg, db1, th1, 3) == (db4, th4);
      n := 4;
    }
  }

  // ----- what every step keeps

  ghost predicate FreshRid(db: Db, rid: RowId) {
    rid < db.rows.next && forall t :: (t, rid) !in db.rows.data
  }

  predicate HasChunk(cs: ColumnarState, t: TableId, i: nat) {
    i < |ChunksOf(cs, t)|
  }

  function ChunkAt(cs: ColumnarState, t: TableId, i: nat): ColumnarChunk
    requires HasChunk(cs, t, i)
  {
    ChunksOf(cs, t)[i]
  }

  ghost predicate FreshChunkId(cs: ColumnarState, id: nat) {
    id < cs.nextChunkId && forall t: TableId, i: nat :: HasChunk(cs, t, i) ==> ChunkAt(cs, t, i).chunkId != id
  }

  ghost predicate ThreadOk(cfg: Config, db: Db, th: Thread) {
    match th
    case Idle => true
    case Inserting(meta, _) => Known(db, meta)
    case Numbered(meta, rid, rows) => Known(db, meta) && rows != [] && FreshRid(db, rid)
    case Stored(meta, _, rows) => Known(db, meta) && rows != []
    case Posted(meta, rows) => Known(db, meta) && rows != [] && Publishable(IndexedColumn(db, meta.id), rows[0])
    case Holding(meta, batch, _) => Known(db, meta) && 1 <= |batch| <= cfg.chunkSize
    case Publishing(meta, batch, id, _) =>
      Known(db, meta) && 1 <= |batch| <= cfg.chunkSize && FreshChunkId(db.columnar, id)
    case Flushing(meta) => Known(db, meta)
  }

  /** No two threads have the same unused row id or chunk id in hand. */
  ghost predicate Apart(a: Thread, b: Thread) {
    && (a.Numbered? && b.Numbered? ==> a.rid != b.rid)
    && (a.Publishing? && b.Publishing? ==> a.id != b.id)
  }

  /** All columns of a chunk have `rowCount` cells, and a chunk with columns has between 1 and the chunk size. */
  ghost predicate ChunkOk(size: nat, chunk: ColumnarChunk) {
    && (forall c :: c in chunk.columns ==> |c.values| == chunk.rowCount)
    && (chunk.columns != [] ==> 1 <= chunk.rowCount <= size)
  }

  /** Chunk ids are distinct and given out, and every chunk is well shaped. */
  ghost predicate ChunksShaped(size: nat, cs: ColumnarState) {
    && (forall t: TableId, i: nat :: HasChunk(cs, t, i) ==>
          ChunkAt(cs, t, i).chunkId < cs.nextChunkId && ChunkOk(size, ChunkAt(cs, t, i)))
    && (forall t: TableId, i: nat, u: TableId, j: nat :: HasChunk(cs, t, i) && HasChunk(cs, u, j) ==>
          (ChunkAt(cs, t, i).chunkId == ChunkAt(cs, u, j).chunkId ==> t == u && i == j))
  }

  ghost predicate BuffersSmall(size: nat, buffer: map<TableId, seq<Row>>) {
    forall t :: t in buffer ==> |buffer[t]| < size
  }

  ghost predicate ColumnsShaped(cfg: Config, db: Db) {
    ChunksShaped(cfg.chunkSize, db.columnar) && BuffersSmall(cfg.chunkSize, db.buffer)
  }

  ghost predicate TablesKnown(catalog: CatalogState) {
    forall t :: t in catalog.byId ==> catalog.byId[t].id == t && Indexed(catalog.byId[t].schema)
  }

  ghost predicate SharedOk(cfg: Config, db: Db) {
    IdsGivenOut(db.rows) && TablesKnown(db.catalog) && ColumnsShaped(cfg, db)
  }

  ghost predicate SystemOk(cfg: Config, s: System) {
    && SharedOk(cfg, s.db)
    && (forall i :: 0 <= i < |s.threads| ==> ThreadOk(cfg, s.db, s.threads[i]))
    && (forall i, j :: 0 <= i < j < |s.threads| ==> Apart(s.threads[i], s.threads[j]))
  }

  // ----- conservation

  function NormalBag(schema: Schema, rows: seq<Row>): multiset<Row> {
    multiset(NormalizedRows(schema, rows))
  }

  function ChunkBag(chunks: seq<ColumnarChunk>): multiset<Row> {
    if chunks == [] then multiset{}
    else ChunkBag(chunks[..|chunks| - 1]) + multiset(ChunkRows(chunks[|chunks| - 1]))
  }

  /** The rows of table `t` that a thread has stored and not yet handed on, or has taken and not yet published. */
  function InFlight(schema: Schema, c: Option<nat>, t: TableId, th: Thread): multiset<Row> {
    match th
    case Stored(meta, _, rows) =>
      if meta.id == t && rows != [] && Publishable(c, rows[0]) then NormalBag(schema, [rows[0]]) else multiset{}
    case Posted(meta, rows) => if meta.id == t && rows != [] then NormalBag(schema, [rows[0]]) else multiset{}
    case Holding(meta, batch, _) => if meta.id == t then NormalBag(schema, batch) else multiset{}
    case Publishing(meta, batch, _, _) => if meta.id == t then NormalBag(schema, batch) else multiset{}
    case _ => multiset{}
  }

  function AllInFlight(schema: Schema, c: Option<nat>, t: TableId, threads: seq<Thread>): multiset<Row> {
    if threads == [] then multiset{}
    else AllInFlight(schema, c, t, threads[..|threads| - 1]) + InFlight(schema, c, t, threads[|threads| - 1])
  }

  /** What the columnar side shows of a table: its chunks and its buffer. */
  function ColumnBag(db: Db, t: TableId): multiset<Row>
    requires t in db.catalog.byId
  {
    ChunkBag(ChunksOf(db.columnar, t)) + NormalBag(db.catalog.byId[t].schema, BufferOf(db, t))
  }

  function StoreBag(db: Db, t: TableId): multiset<Row>
    requires t in db.catalog.byId
  {
    NormalBag(db.catalog.byId[t].schema, Published(db, t))
  }

  /** Chunk rows, buffered rows and rows in flight are together the stored rows, each as often. Rows whose
      id cannot be indexed end their statement once stored and belong to neither side. */
  ghost predicate Conserved(s: System, t: TableId) {
    t in s.db.catalog.byId && s.db.catalog.byId[t].schema.columns != [] ==> Balanced(s.db, s.threads, t)
  }

  ghost predicate Balanced(db: Db, threads: seq<Thread>, t: TableId)
    requires t in db.catalog.byId
  {
    ColumnBag(db, t) + AllInFlight(db.catalog.byId[t].schema, IndexedColumn(db, t), t, threads) == StoreBag(db, t)
  }

  // ----- the shared state, step by step

  lemma PostRowShape(db: Db, meta: TableMeta, rid: RowId, row: Row)
    requires Known(db, meta)
    ensures PostRow(db, meta, rid, row).Success? <==> Publishable(IndexedColumn(db, meta.id), row)
    ensures PostRow(db, meta, rid, row).Success? ==> PostRow(db, meta, rid, row).value.Keys == db.indexes.Keys
  {
    IdCellIsIndexed(db, meta, row);
  }

  /** Steps leave the catalog and the set of indexes alone. */
  lemma StepIsLocal(cfg: Config, db: Db, th: Thread)
    requires ThreadOk(cfg, db, th)
    ensures var db' := StepThread(cfg, db, th).0;
      && db'.catalog == db.catalog && db'.indexes.Keys == db.indexes.Keys
      && db'.rows.next >= db.rows.next && db'.columnar.nextChunkId >= db.columnar.nextChunkId
      && forall t :: IndexedColumn(db', t) == IndexedColumn(db, t)
  {
    if th.Stored? {
      PostRowShape(db, th.meta, th.rid, th.rows[0]);
    }
  }

  lemma ChunkIsOk(size: nat, schema: Schema, batch: seq<Row>, id: nat)
    requires Indexed(schema) && 1 <= |batch| <= size
    ensures ChunkOk(size, NewChunk(id, Transpose(schema, batch)))
  {
    ChunkShape(schema, batch, id, "");
  }

  /** Taking a chunk id makes it fresh; the chunks stay as they are. */
  lemma TakenChunkId(size: nat, cs: ColumnarState)
    requires ChunksShaped(size, cs)
    ensures var cs' := cs.(nextChunkId := cs.nextChunkId + 1);
      ChunksShaped(size, cs') && FreshChunkId(cs', cs.nextChunkId)
  {
    var cs' := cs.(nextChunkId := cs.nextChunkId + 1);
    forall t: TableId, i: nat | HasChunk(cs', t, i)
      ensures HasChunk(cs, t, i) && ChunkAt(cs', t, i) == ChunkAt(cs, t, i)
    {
    }
  }

  /** A well shaped chunk with a fresh id keeps the chunks well shaped. */
  lemma AddedChunk(size: nat, cs: ColumnarState, t: TableId, chunk: ColumnarChunk)
    requires ChunksShaped(size, cs) && FreshChunkId(cs, chunk.chunkId) && ChunkOk(size, chunk)
    ensures ChunksShaped(size, AddChunk(cs, t, chunk))
  {
    var cs', n := AddChunk(cs, t, chunk), |ChunksOf(cs, t)|;
    forall u: TableId, i: nat | HasChunk(cs', u, i)
      ensures if u == t && i == n then ChunkAt(cs', u, i) == chunk
        else HasChunk(cs, u, i) && ChunkAt(cs', u, i) == ChunkAt(cs, u, i)
    {
    }
  }

  lemma StepKeepsShared(cfg: Config, db: Db, th: Thread)
    requires cfg.chunkSize > 0 && SharedOk(cfg, db) && ThreadOk(cfg, db, th)
    ensures SharedOk(cfg, StepThread(cfg, db, th).0)
  {
    StepIsLocal(cfg, db, th);
    match th
    case Publishing(meta, batch, id, _) =>
      ChunkIsOk(cfg.chunkSize, meta.schema, batch, id);
      AddedChunk(cfg.chunkSize, db.columnar, meta.id, NewChunk(id, Transpose(meta.schema, batch)));
    case Holding(_, _, _) => TakenChunkId(cfg.chunkSize, db.columnar);
    case _ =>
  }

  /** The thread that moved is well formed afterwards. */
  lemma StepKeepsThread(cfg: Config, db: Db, th: Thread)
    requires cfg.chunkSize > 0 && SharedOk(cfg, db) && ThreadOk(cfg, db, th)
    ensures var (db', th') := StepThread(cfg, db, th); ThreadOk(cfg, db', th')
  {
    StepIsLocal(cfg, db, th);
    match th
    case Stored(meta, rid, rows) => PostRowShape(db, meta, rid, rows[0]);
    case Holding(_, _, _) => TakenChunkId(cfg.chunkSize, db.columnar);
    case _ =>
  }

  lemma FreshIdStays(cs: ColumnarState, cs': ColumnarState, t: TableId, chunk: ColumnarChunk, id: nat)
    requires FreshChunkId(cs, id) && chunk.chunkId != id && cs' == AddChunk(cs, t, chunk)
    ensures FreshChunkId(cs', id)
  {
    forall u: TableId, i: nat | HasChunk(cs', u, i) ensures ChunkAt(cs', u, i).chunkId != id {
      if HasChunk(cs, u, i) {
        assert ChunkAt(cs, u, i).chunkId != id;
      }
    }
  }

  lemma FreshIdCounted(cs: ColumnarState, id: nat)
    requires FreshChunkId(cs, id)
    ensures FreshChunkId(cs.(nextChunkId := cs.nextChunkId + 1), id)
  {
    var cs' := cs.(nextChunkId := cs.nextChunkId + 1);
    forall u: TableId, i: nat | HasChunk(cs', u, i) ensures ChunkAt(cs', u, i).chunkId != id {
      assert HasChunk(cs, u, i);
    }
  }

  /** Another thread stays well formed, and keeps its ids to itself. */
  lemma StepKeepsOther(cfg: Config, db: Db, th: Thread, other: Thread)
    requires SharedOk(cfg, db) && ThreadOk(cfg, db, th) && ThreadOk(cfg, db, other) && Apart(th, other)
    ensures var (db', th') := StepThread(cfg, db, th); ThreadOk(cfg, db', other) && Apart(th', other)
  {
    StepIsLocal(cfg, db, th);
    if other.Publishing? {
      match th
      case Publishing(meta, batch, id, _) =>
        FreshIdStays(db.columnar, StepThread(cfg, db, th).0.columnar, meta.id,
                     NewChunk(id, Transpose(meta.schema, batch)), other.id);
      case Holding(_, _, _) => FreshIdCounted(db.columnar, other.id);
      case _ =>
    }
  }

  function Step(cfg: Config, s: System, i: nat): System
    requires SystemOk(cfg, s)
  {
    if i >= |s.threads| then s
    else
      var (db', th') := StepThread(cfg, s.db, s.threads[i]);
      System(db', s.threads[i := th'])
  }

  lemma StepKeepsOk(cfg: Config, s: System, i: nat)
    requires cfg.chunkSize > 0 && SystemOk(cfg, s)
    ensures SystemOk(cfg, Step(cfg, s, i))
  {
    if i < |s.threads| {
      var s', th := Step(cfg, s, i), s.threads[i];
      StepKeepsShared(cfg, s.db, th);
      StepKeepsThread(cfg, s.db, th);
      forall j | 0 <= j < |s.threads| && j != i
        ensures ThreadOk(cfg, s'.db, s.threads[j]) && Apart(s'.threads[i], s.threads[j])
      {
        assert Apart(s.threads[if i < j then i else j], s.threads[if i < j then j else i]);
        StepKeepsOther(cfg, s.db, th, s.threads[j]);
      }
    }
  }

  // ----- conservation, step by step

  lemma {:induction false} InFlightUpdate(schema: Schema, c: Option<nat>, t: TableId, threads: seq<Thread>, i: nat,
                                          th: Thread)
    requires i < |threads|
    ensures AllInFlight(schema, c, t, threads[i := th]) + InFlight(schema, c, t, threads[i])
         == AllInFlight(schema, c, t, threads) + InFlight(schema, c, t, th)
  {
    var n := |threads| - 1;
    var front := threads[..n];
    UpdateFront(threads, i, th);
    if i < n {
      InFlightUpdate(schema, c, t, front, i, th);
      AddToBoth(AllInFlight(schema, c, t, front[i := th]), InFlight(schema, c, t, threads[i]),
                AllInFlight(schema, c, t, front), InFlight(schema, c, t, th), InFlight(schema, c, t, threads[n]));
    } else {
      SwapLast(AllInFlight(schema, c, t, front), InFlight(schema, c, t, th), InFlight(schema, c, t, threads[i]));
    }
  }

  lemma UpdateFront<T>(s: seq<T>, i: nat, x: T)
    requires i < |s|
    ensures s[i := x][..|s| - 1] == if i < |s| - 1 then s[..|s| - 1][i := x] else s[..|s| - 1]
  {
  }

  lemma AddToBoth<T>(a: multiset<T>, x: multiset<T>, b: multiset<T>, y: multiset<T>, z: multiset<T>)
    requires a + x == b + y
    ensures (a + z) + x == (b + z) + y
  {
    assert (a + z) + x == (a + x) + z;
    assert (b + z) + y == (b + y) + z;
  }

  lemma SwapLast<T>(a: multiset<T>, x: multiset<T>, y: multiset<T>)
    ensures (a + x) + y == (a + y) + x
  {
  }

  /** If a step moves rows between the columns, the thread and the store without loss, the sum stays right. */
  lemma BalanceCarries<T(!new)>(columns: multiset<T>, flights: multiset<T>, store: multiset<T>,
                          columns': multiset<T>, flights': multiset<T>, store': multiset<T>,
                          own: multiset<T>, own': multiset<T>)
    requires columns + flights == store
    requires flights' + own == flights + own'
    requires columns' + own' + store == columns + own + store'
    ensures columns' + flights' == store'
  {
    forall x ensures (columns' + flights')[x] == store'[x] {
      assert (columns + flights)[x] == store[x];
      assert (flights' + own)[x] == (flights + own')[x];
      assert (columns' + own' + store)[x] == (columns + own + store')[x];
    }
  }

  lemma NormalBagConcat(schema: Schema, a: seq<Row>, b: seq<Row>)
    ensures NormalBag(schema, a + b) == NormalBag(schema, a) + NormalBag(schema, b)
  {
    MapConcat((row: Row) => Normalized(schema, row), a, b);
  }

  lemma {:induction false} StoredBag(data: RowMap, t: TableId, rid: RowId, row: Row, n: nat)
    requires (t, rid) !in data
    ensures var data' := data[(t, rid) := row];
      multiset(Fetch(data', t, Rids(data', t, n))) ==
        if rid < n then multiset(Fetch(data, t, Rids(data, t, n))) + multiset{row}
        else multiset(Fetch(data, t, Rids(data, t, n)))
  {
    if n > 0 {
      var data' := data[(t, rid) := row];
      StoredBag(data, t, rid, row, n - 1);
      Snoc(Rids(data, t, n - 1), n - 1);
      Snoc(Rids(data', t, n - 1), n - 1);
    }
  }

  /** Storing a row under a fresh id adds it to its table, wherever the id falls in the order. */
  lemma StoringAddsOne(rows: RowState, t: TableId, rid: RowId, row: Row, c: Option<nat>, schema: Schema)
    requires rid < rows.next && (t, rid) !in rows.data
    ensures
      var rows' := rows.(data := rows.data[(t, rid) := row]);
      NormalBag(schema, PublishedRows(c, TableRows(rows', t))) ==
        NormalBag(schema, PublishedRows(c, TableRows(rows, t)))
        + if Publishable(c, row) then NormalBag(schema, [row]) else multiset{}
  {
    var rows' := rows.(data := rows.data[(t, rid) := row]);
    StoredBag(rows.data, t, rid, row, rows.next);
    var before := TableRows(rows, t);
    var p := (r: Row) => Publishable(c, r);
    assert multiset(TableRows(rows', t)) == multiset(before + [row]);
    BagSelectAgrees(p, TableRows(rows', t), before + [row]);
    Snoc(before, row);
    var kept := if p(row) then PublishedRows(c, before) + [row] else PublishedRows(c, before);
    assert PublishedRows(c, before + [row]) == kept;
    BagMapAgrees((r: Row) => Normalized(schema, r), PublishedRows(c, TableRows(rows', t)), kept);
    NormalBagConcat(schema, PublishedRows(c, before), [row]);
  }

  lemma SameRowsElsewhere(rows: RowState, rows': RowState, t: TableId)
    requires IdsGivenOut(rows) && rows.next <= rows'.next
    requires forall r ::
      && ((t, r) in rows'.data <==> (t, r) in rows.data)
      && ((t, r) in rows.data ==> rows'.data[(t, r)] == rows.data[(t, r)])
    ensures TableRows(rows', t) == TableRows(rows, t)
  {
    TableFrame(rows, rows', t);
  }

  lemma ChunkBagAdd(chunks: seq<ColumnarChunk>, chunk: ColumnarChunk)
    ensures ChunkBag(chunks + [chunk]) == ChunkBag(chunks) + multiset(ChunkRows(chunk))
  {
    Snoc(chunks, chunk);
  }

  /** The parts of the session from which the bags of table `t` are read. */
  ghost predicate SameParts(db: Db, db': Db, t: TableId, rows: bool, chunks: bool, buffer: bool) {
    && db'.catalog == db.catalog && IndexedColumn(db', t) == IndexedColumn(db, t)
    && (rows ==> TableRows(db'.rows, t) == TableRows(db.rows, t))
    && (chunks ==> ChunksOf(db'.columnar, t) == ChunksOf(db.columnar, t))
    && (buffer ==> BufferOf(db', t) == BufferOf(db, t))
  }

  lemma StepParts(cfg: Config, db: Db, th: Thread, t: TableId)
    requires IdsGivenOut(db.rows) && ThreadOk(cfg, db, th)
    ensures SameParts(db, StepThread(cfg, db, th).0, t,
      !th.Numbered? || th.meta.id != t, !th.Publishing? || th.meta.id != t,
      !(th.Posted? || th.Flushing?) || th.meta.id != t)
  {
    StepIsLocal(cfg, db, th);
    if !th.Numbered? || th.meta.id != t {
      SameRowsElsewhere(db.rows, StepThread(cfg, db, th).0.rows, t);
    }
  }

  lemma BagsOfSameParts(db: Db, db': Db, t: TableId)
    requires t in db.catalog.byId && db'.catalog == db.catalog
    ensures SameParts(db, db', t, true, false, false) ==> StoreBag(db', t) == StoreBag(db, t)
    ensures SameParts(db, db', t, false, true, true) ==> ColumnBag(db', t) == ColumnBag(db, t)
  {
  }

  /** A step changes what is in flight only for the thread's own table. */
  lemma FlightElsewhere(cfg: Config, db: Db, th: Thread, t: TableId)
    requires ThreadOk(cfg, db, th)
    requires th.Idle? || th.Inserting? || th.Stored? || th.Holding? || th.meta.id != t
    ensures forall schema ::
      InFlight(schema, IndexedColumn(db, t), t, StepThread(cfg, db, th).1)
        == InFlight(schema, IndexedColumn(db, t), t, th)
  {
    if th.Stored? {
      PostRowShape(db, th.meta, th.rid, th.rows[0]);
    }
  }

  /** Steps that only take ids or post to an index move no rows, and no step moves rows of other tables. */
  lemma QuietBalance(cfg: Config, db: Db, th: Thread, t: TableId)
    requires IdsGivenOut(db.rows) && ThreadOk(cfg, db, th) && t in db.catalog.byId
    requires th.Idle? || th.Inserting? || th.Stored? || th.Holding? || th.meta.id != t
    ensures var (db', th') := StepThread(cfg, db, th); var schema, c := db.catalog.byId[t].schema, IndexedColumn(db, t);
      && db'.catalog == db.catalog && ColumnBag(db', t) == ColumnBag(db, t) && StoreBag(db', t) == StoreBag(db, t)
      && InFlight(schema, c, t, th') == InFlight(schema, c, t, th)
  {
    StepParts(cfg, db, th, t);
    BagsOfSameParts(db, StepThread(cfg, db, th).0, t);
    FlightElsewhere(cfg, db, th, t);
  }

  lemma StoreBalance(cfg: Config, db: Db, th: Thread, t: TableId)
    requires IdsGivenOut(db.rows) && ThreadOk(cfg, db, th) && t in db.catalog.byId && th.Numbered? && th.meta.id == t
    ensures var (db', th') := StepThread(cfg, db, th); var schema, c := db.catalog.byId[t].schema, IndexedColumn(db, t);
      && db'.catalog == db.catalog && ColumnBag(db', t) == ColumnBag(db, t)
      && InFlight(schema, c, t, th) == multiset{}
      && StoreBag(db', t) == StoreBag(db, t) + InFlight(schema, c, t, th')
  {
    StepParts(cfg, db, th, t);
    BagsOfSameParts(db, StepThread(cfg, db, th).0, t);
    StoringAddsOne(db.rows, t, th.rid, th.rows[0], IndexedColumn(db, t), db.catalog.byId[t].schema);
  }

  lemma BufferBalance(cfg: Config, db: Db, th: Thread, t: TableId)
    requires IdsGivenOut(db.rows) && ThreadOk(cfg, db, th) && t in db.catalog.byId && th.Posted? && th.meta.id == t
    ensures var (db', th') := StepThread(cfg, db, th); var schema, c := db.catalog.byId[t].schema, IndexedColumn(db, t);
      && db'.catalog == db.catalog && StoreBag(db', t) == StoreBag(db, t)
      && ColumnBag(db', t) + InFlight(schema, c, t, th') == ColumnBag(db, t) + InFlight(schema, c, t, th)
  {
    StepParts(cfg, db, th, t);
    BagsOfSameParts(db, StepThread(cfg, db, th).0, t);
    NormalBagConcat(db.catalog.byId[t].schema, BufferOf(db, t), [th.rows[0]]);
    NothingIsNormal(db.catalog.byId[t].schema);
  }

  lemma FlushBalance(cfg: Config, db: Db, th: Thread, t: TableId)
    requires IdsGivenOut(db.rows) && ThreadOk(cfg, db, th) && t in db.catalog.byId && th.Flushing? && th.meta.id == t
    ensures var (db', th') := StepThread(cfg, db, th); var schema, c := db.catalog.byId[t].schema, IndexedColumn(db, t);
      && db'.catalog == db.catalog && StoreBag(db', t) == StoreBag(db, t)
      && ColumnBag(db', t) + InFlight(schema, c, t, th') == ColumnBag(db, t) + InFlight(schema, c, t, th)
  {
    StepParts(cfg, db, th, t);
    BagsOfSameParts(db, StepThread(cfg, db, th).0, t);
    NothingIsNormal(db.catalog.byId[t].schema);
  }

  lemma NothingIsNormal(schema: Schema)
    ensures NormalBag(schema, []) == multiset{}
  {
  }

  lemma PublishBalance(cfg: Config, db: Db, th: Thread, t: TableId)
    requires IdsGivenOut(db.rows) && ThreadOk(cfg, db, th) && t in db.catalog.byId && th.Publishing? && th.meta.id == t
    requires Indexed(th.meta.schema) && th.meta.schema.columns != []
    ensures var (db', th') := StepThread(cfg, db, th); var schema, c := db.catalog.byId[t].schema, IndexedColumn(db, t);
      && db'.catalog == db.catalog && StoreBag(db', t) == StoreBag(db, t)
      && InFlight(schema, c, t, th') == multiset{}
      && ColumnBag(db', t) == ColumnBag(db, t) + InFlight(schema, c, t, th)
  {
    StepParts(cfg, db, th, t);
    BagsOfSameParts(db, StepThread(cfg, db, th).0, t);
    ChunkRowsAreTheBatch(th.meta.schema, th.batch, th.id);
    ChunkBagAdd(ChunksOf(db.columnar, t), NewChunk(th.id, Transpose(th.meta.schema, th.batch)));
  }

  /** A step moves rows between columns, thread and store without loss. */
  ghost predicate StepBalances(cfg: Config, db: Db, th: Thread, t: TableId)
    requires ThreadOk(cfg, db, th) && t in db.catalog.byId
  {
    var (db', th') := StepThread(cfg, db, th);
    var schema, c := db.catalog.byId[t].schema, IndexedColumn(db, t);
    && db'.catalog == db.catalog
    && ColumnBag(db', t) + InFlight(schema, c, t, th') + StoreBag(db, t)
         == ColumnBag(db, t) + InFlight(schema, c, t, th) + StoreBag(db', t)
  }

  lemma QuietBalances(cfg: Config, db: Db, th: Thread, t: TableId)
    requires IdsGivenOut(db.rows) && ThreadOk(cfg, db, th) && t in db.catalog.byId
    requires th.Idle? || th.Inserting? || th.Stored? || th.Holding? || th.meta.id != t
    ensures StepBalances(cfg, db, th, t)
  {
    QuietBalance(cfg, db, th, t);
  }

  lemma MovingBalances(cfg: Config, db: Db, th: Thread, t: TableId)
    requires IdsGivenOut(db.rows) && ThreadOk(cfg, db, th) && t in db.catalog.byId
    requires (th.Posted? || th.Flushing?) && th.meta.id == t
    ensures StepBalances(cfg, db, th, t)
  {
    if th.Posted? {
      BufferBalance(cfg, db, th, t);
    } else {
      FlushBalance(cfg, db, th, t);
    }
  }

  lemma StoreBalances(cfg: Config, db: Db, th: Thread, t: TableId)
    requires IdsGivenOut(db.rows) && ThreadOk(cfg, db, th) && t in db.catalog.byId && th.Numbered? && th.meta.id == t
    ensures StepBalances(cfg, db, th, t)
  {
    StoreBalance(cfg, db, th, t);
  }

  lemma PublishBalances(cfg: Config, db: Db, th: Thread, t: TableId)
    requires IdsGivenOut(db.rows) && ThreadOk(cfg, db, th) && t in db.catalog.byId && th.Publishing? && th.meta.id == t
    requires Indexed(th.meta.schema) && th.meta.schema.columns != []
    ensures StepBalances(cfg, db, th, t)
  {
    PublishBalance(cfg, db, th, t);
  }

  /** Every step moves rows without loss. */
  lemma StepBalance(cfg: Config, db: Db, th: Thread, t: TableId)
    requires SharedOk(cfg, db) && ThreadOk(cfg, db, th) && t in db.catalog.byId
    requires db.catalog.byId[t].schema.columns != []
    ensures StepBalances(cfg, db, th, t)
  {
    if th.Idle? || th.Inserting? || th.Stored? || th.Holding? || th.meta.id != t {
      QuietBalances(cfg, db, th, t);
    } else if th.Numbered? {
      StoreBalances(cfg, db, th, t);
    } else if th.Publishing? {
      PublishBalances(cfg, db, th, t);
    } else {
      MovingBalances(cfg, db, th, t);
    }
  }

  /** The thread that moves and the stores keep the balance, whatever the other threads hold. */
  lemma StepKeepsBalance(cfg: Config, db: Db, threads: seq<Thread>, i: nat, t: TableId)
    requires i < |threads| && SharedOk(cfg, db) && ThreadOk(cfg, db, threads[i])
    requires t in db.catalog.byId && db.catalog.byId[t].schema.columns != [] && Balanced(db, threads, t)
    ensures var (db', th') := StepThread(cfg, db, threads[i]);
      db'.catalog == db.catalog && Balanced(db', threads[i := th'], t)
  {
    StepIsLocal(cfg, db, threads[i]);
    StepBalance(cfg, db, threads[i], t);
    var (db', th') := StepThread(cfg, db, threads[i]);
    NewBalance(db, db', threads, i, th', t);
  }

  lemma NewBalance(db: Db, db': Db, threads: seq<Thread>, i: nat, th: Thread, t: TableId)
    requires i < |threads| && t in db.catalog.byId && db'.catalog == db.catalog
    requires Balanced(db, threads, t) && IndexedColumn(db', t) == IndexedColumn(db, t)
    requires var schema, c := db.catalog.byId[t].schema, IndexedColumn(db, t);
      ColumnBag(db', t) + InFlight(schema, c, t, th) + StoreBag(db, t)
        == ColumnBag(db, t) + InFlight(schema, c, t, threads[i]) + StoreBag(db', t)
    ensures Balanced(db', threads[i := th], t)
  {
    var schema, c := db.catalog.byId[t].schema, IndexedColumn(db, t);
    InFlightUpdate(schema, c, t, threads, i, th);
    BalanceCarries(ColumnBag(db, t), AllInFlight(schema, c, t, threads), StoreBag(db, t),
                   ColumnBag(db', t), AllInFlight(schema, c, t, threads[i := th]), StoreBag(db', t),
                   InFlight(schema, c, t, threads[i]), InFlight(schema, c, t, th));
  }

  lemma StepConserves(cfg: Config, s: System, i: nat, t: TableId)
    requires SystemOk(cfg, s) && Conserved(s, t)
    ensures Conserved(Step(cfg, s, i), t)
  {
    if i < |s.threads| {
      StepIsLocal(cfg, s.db, s.threads[i]);
      if t in s.db.catalog.byId && s.db.catalog.byId[t].schema.columns != [] {
        StepKeepsBalance(cfg, s.db, s.threads, i, t);
      }
    }
  }

  // ----- every interleaving

  /** A schedule names, step by step, the thread that moves. */
  function RunSchedule(cfg: Config, s: System, schedule: seq<nat>): System
    requires cfg.chunkSize > 0 && SystemOk(cfg, s)
    decreases |schedule|
  {
    if schedule == [] then s
    else
      StepKeepsOk(cfg, s, schedule[0]);
      RunSchedule(cfg, Step(cfg, s, schedule[0]), schedule[1..])
  }

  lemma {:induction false} ScheduleKeeps(cfg: Config, s: System, schedule: seq<nat>, t: TableId)
    requires cfg.chunkSize > 0 && SystemOk(cfg, s) && Conserved(s, t)
    ensures SystemOk(cfg, RunSchedule(cfg, s, schedule)) && Conserved(RunSchedule(cfg, s, schedule), t)
    ensures RunSchedule(cfg, s, schedule).db.catalog == s.db.catalog
    ensures |RunSchedule(cfg, s, schedule).threads| == |s.threads|
    decreases |schedule|
  {
    if schedule != [] {
      StepKeepsOk(cfg, s, schedule[0]);
      StepConserves(cfg, s, schedule[0], t);
      if schedule[0] < |s.threads| {
        StepIsLocal(cfg, s.db, s.threads[schedule[0]]);
      }
      ScheduleKeeps(cfg, Step(cfg, s, schedule[0]), schedule[1..], t);
    }
  }

  predicate AboutToStart(th: Thread) {
    th.Idle? || th.Inserting? || th.Flushing?
  }

  /** Threads about to start, over a session left by a sequential run. */
  ghost predicate Starts(cfg: Config, s: System) {
    && Inv(cfg, s.db) && ColumnsShaped(cfg, s.db)
    && (forall i :: 0 <= i < |s.threads| ==>
          AboutToStart(s.threads[i]) && (s.threads[i].Idle? || Known(s.db, s.threads[i].meta)))
  }

  lemma PublishKeepsShape(cfg: Config, db: Db, t: TableId, schema: Schema, batch: seq<Row>)
    requires ColumnsShaped(cfg, db) && Indexed(schema) && 1 <= |batch| <= cfg.chunkSize
    ensures ColumnsShaped(cfg, Publish(db, t, schema, batch))
  {
    var id := db.columnar.nextChunkId;
    TakenChunkId(cfg.chunkSize, db.columnar);
    ChunkIsOk(cfg.chunkSize, schema, batch, id);
    AddedChunk(cfg.chunkSize, db.columnar.(nextChunkId := id + 1), t, NewChunk(id, Transpose(schema, batch)));
  }

  lemma FlushKeepsShape(cfg: Config, db: Db, t: TableId, schema: Schema)
    requires cfg.chunkSize > 0 && ColumnsShaped(cfg, db) && Indexed(schema)
    ensures ColumnsShaped(cfg, FlushBuffer(db, t, schema))
  {
    if BufferOf(db, t) != [] {
      PublishKeepsShape(cfg, db.(buffer := db.buffer[t := []]), t, schema, BufferOf(db, t));
    }
  }

  lemma PushKeepsShape(cfg: Config, db: Db, t: TableId, schema: Schema, row: Row)
    requires cfg.chunkSize > 0 && ColumnsShaped(cfg, db) && Indexed(schema)
    ensures ColumnsShaped(cfg, PushRow(cfg, db, t, schema, row))
  {
    var batch := BufferOf(db, t) + [row];
    if |batch| >= cfg.chunkSize {
      PublishKeepsShape(cfg, db.(buffer := db.buffer[t := []]), t, schema, batch);
    }
  }

  lemma InsertKeepsShape(cfg: Config, db: Db, meta: TableMeta, row: Row)
    requires cfg.chunkSize > 0 && ColumnsShaped(cfg, db) && Indexed(meta.schema)
    ensures ColumnsShaped(cfg, InsertOne(cfg, db, meta, row).0)
  {
    if IndexRow(db, meta, row).Success? {
      var indexed := db.(rows := InsertRow(db.rows, meta.id, row), indexes := IndexRow(db, meta, row).value);
      PushKeepsShape(cfg, indexed, meta.id, meta.schema, row);
    }
  }

  lemma DropKeepsShape(cfg: Config, db: Db, namespace: Option<string>, table: string, meta: TableMeta)
    requires ColumnsShaped(cfg, db)
    ensures ColumnsShaped(cfg, DropExisting(db, namespace, table, meta))
  {
    var cs, cs' := db.columnar, DropChunks(db.columnar, meta.id);
    forall t: TableId, i: nat | HasChunk(cs', t, i)
      ensures HasChunk(cs, t, i) && ChunkAt(cs', t, i) == ChunkAt(cs, t, i)
    {
    }
  }

  ghost predicate Ready(cfg: Config, db: Db) {
    Inv(cfg, db) && ColumnsShaped(cfg, db)
  }

  lemma ReadyIsStable(cfg: Config)
    requires cfg.chunkSize > 0
    ensures Stable(cfg, db => Ready(cfg, db))
  {
    forall db, t | Ready(cfg, db) && t in db.catalog.byId
      ensures Ready(cfg, FlushBuffer(db, t, db.catalog.byId[t].schema))
    {
      FlushKeepsRowInv(db, t, db.catalog.byId[t].schema);
      FlushKeepsColumns(cfg, db, t);
      FlushKeepsShape(cfg, db, t, db.catalog.byId[t].schema);
    }
    forall db, meta, row | Ready(cfg, db) && Known(db, meta) ensures Ready(cfg, InsertOne(cfg, db, meta, row).0) {
      InsertKeepsInv(cfg, db, meta, row);
      InsertKeepsShape(cfg, db, meta, row);
    }
    forall db, namespace, table, columns | Ready(cfg, db)
      ensures Ready(cfg, CreateNew(db, namespace, table, columns))
    {
      CreateKeepsInv(cfg, db, namespace, table, columns);
    }
    forall db, namespace, table, meta | Ready(cfg, db) && FindTable(db, namespace, table) == Success(meta)
      ensures Ready(cfg, DropExisting(db, namespace, table, meta))
    {
      DropKeepsInv(cfg, db, namespace, table, meta);
      DropKeepsShape(cfg, db, namespace, table, meta);
    }
  }

  lemma {:induction false} RunKeepsReady(cfg: Config, db: Db, plans: seq<PlanNode>)
    requires cfg.chunkSize > 0 && Ready(cfg, db)
    ensures Ready(cfg, Run(cfg, db, plans))
    decreases |plans|
  {
    if plans != [] {
      ReadyIsStable(cfg);
      ExecKeeps(cfg, db => Ready(cfg, db), db, plans[0]);
      RunKeepsReady(cfg, Exec(cfg, db, plans[0]).0, plans[1..]);
    }
  }

  /** Threads may start over whatever a sequential run leaves. */
  lemma SequentialRunsLeadHere(cfg: Config, catalog: CatalogState, plans: seq<PlanNode>, threads: seq<Thread>)
    requires cfg.chunkSize > 0 && Consistent(catalog)
    requires forall i :: 0 <= i < |threads| ==>
      AboutToStart(threads[i]) && (threads[i].Idle? || Known(Run(cfg, NewSession(catalog), plans), threads[i].meta))
    ensures Starts(cfg, System(Run(cfg, NewSession(catalog), plans), threads))
  {
    NewSessionInv(cfg, catalog);
    RunKeepsReady(cfg, NewSession(catalog), plans);
  }

  lemma {:induction false} SegmentsBag(schema: Schema, chunks: seq<ColumnarChunk>, segments: seq<seq<Row>>)
    requires Indexed(schema) && schema.columns != [] && HoldsSegments(schema, chunks, segments)
    ensures ChunkBag(chunks) == NormalBag(schema, Concat(segments))
  {
    if chunks != [] {
      var n := |chunks| - 1;
      HoldsFront(schema, chunks, segments);
      SegmentsBag(schema, chunks[..n], segments[..n]);
      ChunkRowsAreTheBatch(schema, segments[n], chunks[n].chunkId);
      NormalBagConcat(schema, Concat(segments[..n]), segments[n]);
    }
  }

  lemma {:induction false} NothingInFlight(schema: Schema, c: Option<nat>, t: TableId, threads: seq<Thread>)
    requires forall i :: 0 <= i < |threads| ==> AboutToStart(threads[i])
    ensures AllInFlight(schema, c, t, threads) == multiset{}
  {
    if threads != [] {
      NothingInFlight(schema, c, t, threads[..|threads| - 1]);
    }
  }

  lemma CoveredIsConserved(cfg: Config, db: Db, t: TableId)
    requires t in db.catalog.byId && TableCovered(cfg, db, t)
    requires Indexed(db.catalog.byId[t].schema) && db.catalog.byId[t].schema.columns != []
    ensures ColumnBag(db, t) == StoreBag(db, t)
  {
    var schema := db.catalog.byId[t].schema;
    var segments :| Covers(cfg.chunkSize, schema, ChunksOf(db.columnar, t), BufferOf(db, t), Published(db, t),
                           segments);
    SegmentsBag(schema, ChunksOf(db.columnar, t), segments);
    NormalBagConcat(schema, Concat(segments), BufferOf(db, t));
  }

  lemma StartIsBalanced(cfg: Config, db: Db, threads: seq<Thread>, t: TableId)
    requires t in db.catalog.byId && TableCovered(cfg, db, t)
    requires Indexed(db.catalog.byId[t].schema) && db.catalog.byId[t].schema.columns != []
    requires forall i :: 0 <= i < |threads| ==> AboutToStart(threads[i])
    ensures Balanced(db, threads, t)
  {
    CoveredIsConserved(cfg, db, t);
    NothingInFlight(db.catalog.byId[t].schema, IndexedColumn(db, t), t, threads);
  }

  lemma InvIsShared(cfg: Config, db: Db)
    requires Inv(cfg, db) && ColumnsShaped(cfg, db)
    ensures SharedOk(cfg, db)
  {
  }

  lemma ThreadsMayStart(cfg: Config, s: System)
    requires SharedOk(cfg, s.db)
    requires forall i :: 0 <= i < |s.threads| ==>
      AboutToStart(s.threads[i]) && (s.threads[i].Idle? || Known(s.db, s.threads[i].meta))
    ensures SystemOk(cfg, s)
  {
  }

  lemma InvCovers(cfg: Config, db: Db, t: TableId)
    requires Inv(cfg, db) && t in db.catalog.byId
    ensures TableCovered(cfg, db, t)
  {
  }

  lemma StartIsOk(cfg: Config, s: System, t: TableId)
    requires cfg.chunkSize > 0 && Starts(cfg, s)
    ensures SystemOk(cfg, s) && Conserved(s, t)
  {
    InvIsShared(cfg, s.db);
    ThreadsMayStart(cfg, s);
    if t in s.db.catalog.byId && s.db.catalog.byId[t].schema.columns != [] {
      InvCovers(cfg, s.db, t);
      StartIsBalanced(cfg, s.db, s.threads, t);
    }
  }

  /** In every interleaving and at every moment: chunk ids are distinct, chunks are well shaped, the buffer is
      below the chunk size, and chunks, buffer and rows in flight hold exactly the stored rows, so that no
      reader of the chunks ever sees a row twice or one that is not stored. When all threads are done, chunks
      and buffer alone are the table. */
  lemma EveryInterleavingConserves(cfg: Config, s: System, schedule: seq<nat>, t: TableId)
    requires cfg.chunkSize > 0 && Starts(cfg, s)
    requires t in s.db.catalog.byId && s.db.catalog.byId[t].schema.columns != []
    ensures
      SystemOk(cfg, s) &&
      var s' := RunSchedule(cfg, s, schedule);
      && s'.db.catalog == s.db.catalog
      && SharedOk(cfg, s'.db) && Conserved(s', t)
      && ChunkBag(ChunksOf(s'.db.columnar, t)) <= StoreBag(s'.db, t)
      && ((forall i :: 0 <= i < |s'.threads| ==> s'.threads[i].Idle?) ==> ColumnBag(s'.db, t) == StoreBag(s'.db, t))
  {
    StartIsOk(cfg, s, t);
    ScheduleKeeps(cfg, s, schedule, t);
    var s' := RunSchedule(cfg, s, schedule);
    var schema, c := s.db.catalog.byId[t].schema, IndexedColumn(s'.db, t);
    PartOfSum(ChunkBag(ChunksOf(s'.db.columnar, t)), NormalBag(schema, BufferOf(s'.db, t)),
              AllInFlight(schema, c, t, s'.threads));
    if forall i :: 0 <= i < |s'.threads| ==> s'.threads[i].Idle? {
      NothingInFlight(schema, c, t, s'.threads);
    }
  }

  lemma PartOfSum<T>(a: multiset<T>, b: multiset<T>, c: multiset<T>)
    ensures a <= a + b + c
  {
  }
}
