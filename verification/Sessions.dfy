/** The session object: stores, indexes and buffer updated in place, as the engine's value says. */
module Sessions {
  import opened Aggregates
  import opened BTreeIndexes
  import opened Catalogs
  import opened Columnar
  import opened Engine
  import opened Grouping
  import opened IndexKeys
  import opened Plans
  import opened RowOrder
  import opened Schemas
  import opened Seqs
  import opened Sorting
  import opened TableStores
  import opened Values
  import Lex

  class SessionState {
    const cfg: Config
    const catalog: Catalog
    const rowStore: TableStore
    const columnarStore: ColumnarStore
    var indexStore: map<(TableId, string), BTreeIndex>
    var columnarBuffer: map<TableId, seq<Row>>

    /** The session as a value. */
    ghost var state: Db

    constructor (cfg: Config)
      ensures Valid() && fresh(Footprint())
      ensures this.cfg == cfg && state == NewSession(EMPTY_CATALOG)
    {
      this.cfg := cfg;
      catalog := new Catalog();
      rowStore := new TableStore();
      columnarStore := new ColumnarStore();
      indexStore, columnarBuffer := map[], map[];
      state := NewSession(EMPTY_CATALOG);
    }

    ghost function Indexes(): set<object>
      reads this
    {
      set k | k in indexStore :: indexStore[k]
    }

    ghost function Footprint(): set<object>
      reads this
    {
      {this, catalog, rowStore, columnarStore} + Indexes()
    }

    /** `state` is what the objects hold, no two indexes share an object, and no stored row has an id still
        to be given out. */
    ghost predicate Valid()
      reads Footprint()
    {
      && state.catalog == catalog.State() && state.rows == rowStore.State() && state.columnar == columnarStore.State()
      && state.buffer == columnarBuffer
      && state.indexes.Keys == indexStore.Keys
      && (forall k :: k in indexStore ==> state.indexes[k] == indexStore[k].entries)
      && (forall j, k :: j in indexStore && k in indexStore && indexStore[j] == indexStore[k] ==> j == k)
      && IdsGivenOut(state.rows)
    }

    method TableMeta(namespace: Option<string>, table: string) returns (r: Result<TableMeta>)
      requires Valid()
      ensures r == FindTable(state, namespace, table)
    {
      var meta := catalog.GetTable(NamespaceOf(namespace), table);
      r := match meta case Some(m) => Success(m) case None => Failure(TableNotFound(NamespaceOf(namespace), table));
    }

    method ScanMeta(node: PlanNode) returns (r: Result<TableMeta>)
      requires Valid()
      ensures r == Engine.ScanMeta(state, node)
      decreases node
    {
      match node {
        case Scan(table, namespace) => r := TableMeta(namespace, table);
        case Insert(_, _, _) => r := Failure(ExpectedScan);
        case CreateTable(_, _, _) => r := Failure(ExpectedScan);
        case DropTable(_, _) => r := Failure(ExpectedScan);
        case _ => r := ScanMeta(node.input);
      }
    }

    /** Takes the rows buffered for a table, if there are any, and publishes them as a chunk. */
    method FlushColumnarBuffer(t: TableId, schema: Schema)
      requires Valid()
      modifies this`columnarBuffer, this`state, columnarStore
      ensures Valid() && state == FlushBuffer(old(state), t, schema)
    {
      if t !in columnarBuffer || columnarBuffer[t] == [] {
        return;
      }
      var batch := columnarBuffer[t];
      columnarBuffer := columnarBuffer[t := []];
      state := state.(buffer := columnarBuffer);
      PublishChunk(t, schema, batch);
    }

    method PublishChunk(t: TableId, schema: Schema, batch: seq<Row>)
      requires Valid()
      modifies columnarStore, this`state
      ensures Valid() && state == Publish(old(state), t, schema, batch)
    {
      var id := columnarStore.NextChunkId();
      columnarStore.InsertChunk(t, NewChunk(id, Transpose(schema, batch)));
      state := Publish(state, t, schema, batch);
    }

    /** Buffers a row, and publishes the buffer when it has reached the chunk size. */
    method PushColumnarRow(t: TableId, row: Row, schema: Schema)
      requires Valid()
      modifies this`columnarBuffer, this`state, columnarStore
      ensures Valid() && state == PushRow(cfg, old(state), t, schema, row)
    {
      var batch := (if t in columnarBuffer then columnarBuffer[t] else []) + [row];
      if |batch| < cfg.chunkSize {
        columnarBuffer := columnarBuffer[t := batch];
        state := state.(buffer := columnarBuffer);
      } else {
        columnarBuffer := columnarBuffer[t := []];
        state := state.(buffer := columnarBuffer);
        PublishChunk(t, schema, batch);
      }
    }

    method StoreRow(t: TableId, row: Row) returns (rid: RowId)
      requires Valid()
      modifies rowStore, this`state
      ensures Valid() && rid == old(state).rows.next
      ensures state == old(state).(rows := TableStores.InsertRow(old(state).rows, t, row))
    {
      InsertAppends(state.rows, t, row);
      rid := rowStore.Insert(t, row);
      state := state.(rows := TableStores.InsertRow(state.rows, t, row));
    }

    method AddToIndex(k: (TableId, string), key: Lex.Key, rid: RowId)
      requires Valid() && k in indexStore
      modifies indexStore[k], this`state
      ensures Valid() && k in old(state).indexes
      ensures state == old(state).(indexes := old(state).indexes[k := AddPosting(old(state).indexes[k], key, rid)])
    {
      var index := indexStore[k];
      index.Insert(key, rid);
      state := state.(indexes := state.indexes[k := AddPosting(state.indexes[k], key, rid)]);
    }

    /** INSERT of one row: store it, index it, push it to the buffer. */
    method InsertRow(meta: TableMeta, row: Row) returns (error: Option<Error>)
      requires Valid()
      modifies Footprint()
      ensures Valid() && indexStore == old(indexStore)
      ensures (state, error) == InsertOne(cfg, old(state), meta, row)
    {
      var rid := StoreRow(meta.id, row);
      var idCol := ColumnIndex(meta.schema, ID);
      if idCol.Some? && (meta.id, ID) in indexStore && idCol.value < |row| {
        var key := FromValue(row[idCol.value]);
        if key.Failure? {
          return Some(key.error);
        }
        AddToIndex((meta.id, ID), key.value, rid);
      }
      PushColumnarRow(meta.id, row, meta.schema);
      error := None;
    }

    method InsertRows(meta: TableMeta, values: seq<Row>) returns (r: Result<Outcome>)
      requires Valid()
      modifies Footprint()
      ensures Valid() && indexStore == old(indexStore)
      ensures (state, r) == InsertFrom(cfg, old(state), meta, values, 0)
    {
      var count := 0;
      for k := 0 to |values|
        invariant Valid() && indexStore == old(indexStore) && count == k
        invariant InsertFrom(cfg, state, meta, values[k..], k) == InsertFrom(cfg, old(state), meta, values, 0)
      {
        assert values[k..][0] == values[k] && values[k..][1..] == values[k + 1..];
        var error := InsertRow(meta, values[k]);
        if error.Some? {
          return Failure(error.value);
        }
        count := count + 1;
      }
      r := Success(RowsAffected(count));
    }

    method AddTable(table: string, namespace: string, schema: Schema) returns (meta: TableMeta)
      requires Valid()
      modifies catalog, this`state
      ensures Valid() && meta == NewMeta(old(state).catalog, namespace, table, schema, None)
      ensures state == old(state).(catalog := WithTable(old(state).catalog, namespace, table, schema, None))
    {
      meta := catalog.CreateTable(namespace, table, schema, None);
      state := state.(catalog := WithTable(state.catalog, namespace, table, schema, None));
    }

    method AddIndex(k: (TableId, string))
      requires Valid()
      modifies this`indexStore, this`state
      ensures Valid() && fresh(Footprint() - old(Footprint()))
      ensures state == old(state).(indexes := old(state).indexes[k := map[]])
    {
      var index := new BTreeIndex();
      assert forall j :: j in indexStore ==> indexStore[j] != index;
      indexStore := indexStore[k := index];
      state := state.(indexes := state.indexes[k := map[]]);
    }

    method CreateTable(table: string, namespace: Option<string>, columns: seq<(string, ColumnType)>)
      requires Valid()
      modifies Footprint()
      ensures Valid() && fresh(Footprint() - old(Footprint()))
      ensures state == CreateNew(old(state), namespace, table, columns)
    {
      var schema := TableSchema(columns);
      var meta := AddTable(table, NamespaceOf(namespace), schema);
      if ColumnIndex(meta.schema, ID).Some? {
        AddIndex((meta.id, ID));
      }
    }

    method RemoveRows(t: TableId)
      requires Valid()
      modifies rowStore, this`state
      ensures Valid() && state == old(state).(rows := DropRows(old(state).rows, t))
    {
      DropEmpties(state.rows, t);
      rowStore.DropTable(t);
      state := state.(rows := DropRows(state.rows, t));
    }

    method RemoveChunks(t: TableId)
      requires Valid()
      modifies columnarStore, this`state
      ensures Valid() && state == old(state).(columnar := DropChunks(old(state).columnar, t))
    {
      columnarStore.DropTable(t);
      state := state.(columnar := DropChunks(state.columnar, t));
    }

    method RemoveIndexes(t: TableId)
      requires Valid()
      modifies this`indexStore, this`state
      ensures Valid() && Footprint() <= old(Footprint())
      ensures state == old(state).(indexes := map k | k in old(state).indexes && k.0 != t :: old(state).indexes[k])
    {
      indexStore := map k | k in indexStore && k.0 != t :: indexStore[k];
      state := state.(indexes := map k | k in state.indexes && k.0 != t :: state.indexes[k]);
    }

    method RemoveTable(table: string, namespace: string)
      requires Valid()
      modifies catalog, this`state
      ensures Valid() && state == old(state).(catalog := WithoutTable(old(state).catalog, namespace, table))
    {
      var dropped := catalog.DropTable(namespace, table);
      state := state.(catalog := WithoutTable(state.catalog, namespace, table));
    }

    method DropTable(table: string, namespace: Option<string>, meta: TableMeta)
      requires Valid()
      modifies Footprint()
      ensures Valid() && Footprint() <= old(Footprint())
      ensures state == DropExisting(old(state), namespace, table, meta)
    {
      RemoveRows(meta.id);
      RemoveChunks(meta.id);
      RemoveIndexes(meta.id);
      RemoveTable(table, NamespaceOf(namespace));
    }

    /** Looks ids up in the row store; those no longer there are skipped. */
    method FetchRows(t: TableId, rids: seq<RowId>) returns (rows: seq<Row>)
      ensures rows == Fetch(rowStore.data, t, rids)
    {
      rows := [];
      for k := 0 to |rids|
        invariant rows == Fetch(rowStore.data, t, rids[..k])
      {
        assert rids[..k + 1][..k] == rids[..k];
        var row := rowStore.Get(t, rids[k]);
        if row.Some? {
          rows := rows + [row.value];
        }
      }
      assert rids[..|rids|] == rids;
    }

    method AnswerLookup(t: TableId, lookup: IdLookup) returns (r: Result<seq<Row>>)
      requires Valid() && (t, ID) in indexStore
      ensures (t, ID) in state.indexes && r == LookupRows(state, t, state.indexes[(t, ID)], lookup)
    {
      var index := indexStore[(t, ID)];
      var rids: seq<RowId>;
      match lookup {
        case Point(v) =>
          var key := FromValue(v);
          if key.Failure? { return Failure(key.error); }
          rids := index.Get(key.value);
        case RangeInclusive(low, high) =>
          var start, end := FromValue(low), FromValue(high);
          if start.Failure? { return Failure(start.error); }
          if end.Failure? { return Failure(end.error); }
          var ids := index.Range(start.value, Some(end.value));
          if ids.Failure? { return Failure(ids.error); }
          rids := ids.value;
      }
      var rows := FetchRows(t, rids);
      r := Success(rows);
    }

    /** Executes a plan: the new state and the result are those of the engine's value. */
    method Execute(plan: PlanNode) returns (r: Result<Outcome>)
      requires Valid()
      modifies Footprint()
      ensures Valid() && fresh(Footprint() - old(Footprint()))
      ensures (state, r) == Exec(cfg, old(state), plan)
      decreases plan, 0
    {
      match plan {
        case Scan(_, _) => r := ExecuteScan(plan);
        case Filter(_, _) => r := ExecuteFilter(plan);
        case Limit(input, limit, offset) =>
          var sub := Execute(input);
          r := Limited(limit, offset, sub);
        case Aggregate(_, _) => r := ExecuteAggregate(plan);
        case Insert(_, _, _) => r := ExecuteStatement(plan);
        case CreateTable(_, _, _) => r := ExecuteStatement(plan);
        case DropTable(_, _) => r := ExecuteStatement(plan);
        case _ => r := ExecuteOverSchema(plan);
      }
    }

    method ExecuteStatement(plan: PlanNode) returns (r: Result<Outcome>)
      requires Valid() && (plan.Insert? || plan.CreateTable? || plan.DropTable?)
      modifies Footprint()
      ensures Valid() && fresh(Footprint() - old(Footprint()))
      ensures (state, r) == Exec(cfg, old(state), plan)
    {
      if plan.CreateTable? {
        CreateTable(plan.table, plan.namespace, plan.columns);
        return Success(RowsAffected(0));
      }
      var meta := TableMeta(plan.namespace, plan.table);
      if meta.Failure? {
        r := Failure(meta.error);
      } else if plan.Insert? {
        r := InsertRows(meta.value, plan.values);
      } else {
        DropTable(plan.table, plan.namespace, meta.value);
        r := Success(RowsAffected(0));
      }
    }

    method ExecuteScan(plan: PlanNode) returns (r: Result<Outcome>)
      requires Valid() && plan.Scan?
      ensures (state, r) == Exec(cfg, state, plan)
    {
      var meta := TableMeta(plan.namespace, plan.table);
      if meta.Failure? { return Failure(meta.error); }
      var pairs := rowStore.Scan(meta.value.id);
      FetchPairsRows(rowStore.data, meta.value.id, TableRids(state.rows, meta.value.id));
      r := Success(Rows(SecondOf(pairs)));
    }

    method ExecuteFilter(plan: PlanNode) returns (r: Result<Outcome>)
      requires Valid() && plan.Filter?
      modifies Footprint()
      ensures Valid() && fresh(Footprint() - old(Footprint()))
      ensures (state, r) == Exec(cfg, old(state), plan)
      decreases plan.input, 2
    {
      var meta := ScanMeta(plan.input);
      if meta.Failure? { return Failure(meta.error); }
      var indexed := plan.input.Scan? && (meta.value.id, ID) in indexStore;
      var lookup := if indexed then PredicateToLookup(plan.pred, ID) else None;
      if lookup.Some? {
        var answer := AnswerLookup(meta.value.id, lookup.value);
        return AsOutcome(answer);
      }
      var sub := Execute(plan.input);
      r := Filtered(plan.pred, meta.value.schema, sub);
    }

    method ExecuteAggregate(plan: PlanNode) returns (r: Result<Outcome>)
      requires Valid() && plan.Aggregate?
      modifies Footprint()
      ensures Valid() && fresh(Footprint() - old(Footprint()))
      ensures (state, r) == Exec(cfg, old(state), plan)
      decreases plan.input, 2
    {
      var meta := ScanMeta(plan.input);
      if meta.Failure? { return Failure(meta.error); }
      r := AggregateTable(plan.input, meta.value, plan.aggs);
    }

    /** Flushes first, so that the chunks have every published row. */
    method AggregateTable(input: PlanNode, meta: TableMeta, aggs: seq<AggExpr>) returns (r: Result<Outcome>)
      requires Valid()
      modifies Footprint()
      ensures Valid() && fresh(Footprint() - old(Footprint()))
      ensures
        var flushed := FlushBuffer(old(state), meta.id, meta.schema);
        var chunks := ChunksOf(flushed.columnar, meta.id);
        (state, r) ==
          if chunks == [] then var (db, v) := AggregateInput(cfg, flushed, input, meta.schema, aggs); (db, AsOneRow(v))
          else (flushed, Success(Rows([ChunkAggregates(chunks, aggs)])))
      decreases input, 1, |aggs| + 1
    {
      FlushColumnarBuffer(meta.id, meta.schema);
      var chunks := columnarStore.Chunks(meta.id);
      if chunks == [] {
        var v := ExecuteAggregateInput(input, meta.schema, aggs);
        r := AsOneRow(v);
      } else {
        var values := AggregateEach(chunks, aggs);
        r := Success(Rows([values]));
      }
    }

    method AggregateEach(chunks: seq<ColumnarChunk>, aggs: seq<AggExpr>) returns (values: seq<Value>)
      ensures values == ChunkAggregates(chunks, aggs)
    {
      values := [];
      for k := 0 to |aggs|
        invariant values == ChunkAggregates(chunks, aggs[..k])
      {
        assert aggs[..k + 1] == aggs[..k] + [aggs[k]];
        var v := AggregateChunks(chunks, aggs[k]);
        values := values + [v];
      }
      assert aggs[..|aggs|] == aggs;
    }

    /** Without chunks, each aggregate runs the input again. */
    method ExecuteAggregateInput(input: PlanNode, schema: Schema, aggs: seq<AggExpr>) returns (r: Result<seq<Value>>)
      requires Valid()
      modifies Footprint()
      ensures Valid() && fresh(Footprint() - old(Footprint()))
      ensures (state, r) == AggregateInput(cfg, old(state), input, schema, aggs)
      decreases input, 1, |aggs|
    {
      if aggs == [] {
        return Success([]);
      }
      var sub := Execute(input);
      var rows := RowsOf(sub);
      if rows.Failure? { return Failure(rows.error); }
      var v := AggregateRows(rows.value, schema, aggs[0]);
      if v.Failure? { return Failure(v.error); }
      var rest := ExecuteAggregateInput(input, schema, aggs[1..]);
      r := match rest case Success(vs) => Success([v.value] + vs) case Failure(e) => Failure(e);
    }

    /** Project, GroupBy and OrderBy: the input's rows, then its schema. */
    method ExecuteOverSchema(plan: PlanNode) returns (r: Result<Outcome>)
      requires Valid() && (plan.Project? || plan.GroupBy? || plan.OrderBy?)
      modifies Footprint()
      ensures Valid() && fresh(Footprint() - old(Footprint()))
      ensures (state, r) == Exec(cfg, old(state), plan)
      decreases plan.input, 2
    {
      var sub := Execute(plan.input);
      var meta := ScanMeta(plan.input);
      r := ApplyOverSchema(plan, sub, meta);
    }

    method ApplyOverSchema(plan: PlanNode, sub: Result<Outcome>, meta: Result<TableMeta>) returns (r: Result<Outcome>)
      requires plan.Project? || plan.GroupBy? || plan.OrderBy?
      ensures r == OverSchema(cfg.render, plan, sub, meta)
    {
      var rows := RowsOf(sub);
      if rows.Failure? { return Failure(rows.error); }
      if meta.Failure? { return Failure(meta.error); }
      match plan {
        case Project(_, names) => r := Success(Rows(ProjectRows(names, meta.value.schema, rows.value)));
        case OrderBy(_, order) => r := AsOutcome(OrderRows(meta.value.schema, order, rows.value));
        case GroupBy(_, keys, aggs) =>
          var out := GroupAndAggregate(meta.value.schema, keys, aggs, rows.value);
          r := AsOutcome(out);
      }
    }

    method AggregateAll(rows: seq<Row>, schema: Schema, aggs: seq<AggExpr>) returns (r: Result<seq<Value>>)
      ensures r == RowAggregates(rows, schema, aggs)
      decreases |aggs|
    {
      if aggs == [] {
        return Success([]);
      }
      var v := AggregateRows(rows, schema, aggs[0]);
      if v.Failure? { return Failure(v.error); }
      var rest := AggregateAll(rows, schema, aggs[1..]);
      r := match rest case Success(vs) => Success([v.value] + vs) case Failure(e) => Failure(e);
    }

    /** Gathers the groups row by row, then makes one row of each in key order. */
    method GroupAndAggregate(schema: Schema, keys: seq<string>, aggs: seq<AggExpr>, rows: seq<Row>)
      returns (r: Result<seq<Row>>)
      ensures r == GroupByRows(cfg.render, schema, keys, aggs, rows)
    {
      var indices := Indices(schema, keys);
      if indices.Failure? { return Failure(indices.error); }
      var groups := CollectGroups(cfg.render, indices.value, rows);
      var order := Lex.Sorted(groups.Keys);
      r := GroupOutput(schema, aggs, groups, order);
    }

    method GroupOutput(schema: Schema, aggs: seq<AggExpr>, groups: Groups, order: seq<Lex.Key>)
      returns (r: Result<seq<Row>>)
      requires forall k :: k in order ==> k in groups
      ensures r == GroupResults(schema, aggs, groups, order)
      decreases |order|
    {
      if order == [] {
        return Success([]);
      }
      var (cells, members) := groups[order[0]];
      var values := AggregateAll(members, schema, aggs);
      if values.Failure? { return Failure(values.error); }
      var rest := GroupOutput(schema, aggs, groups, order[1..]);
      r := match rest case Success(out) => Success([cells + values.value] + out) case Failure(e) => Failure(e);
    }
  }
}
