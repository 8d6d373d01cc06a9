/** Table ids over whole runs: a created table starts empty everywhere, a dropped one never comes back. */
module TableIdentity {
  import opened Catalogs
  import opened Columnar
  import opened Engine
  import opened IndexedLookups
  import opened Invariants
  import opened Plans
  import opened Schemas
  import opened TableStores
  import opened Values

  /** Over any run, whether the name is new, taken or dropped before: a created table has an id that
      nothing stored bears, is found under its name, and is empty in every store. */
  lemma CreatedIsNewAndEmpty(cfg: Config, catalog: CatalogState, events: seq<Event>,
                             namespace: Option<string>, table: string, columns: seq<(string, ColumnType)>)
    requires Consistent(catalog)
    ensures
      var db := RunEvents(cfg, NewSession(catalog), events);
      var db' := CreateNew(db, namespace, table, columns);
      var t := db.catalog.nextTable;
      && TableIdsGivenOut(db) && t !in db.catalog.byId
      && FindTable(db', namespace, table).Success? && FindTable(db', namespace, table).value.id == t
      && TableRows(db'.rows, t) == [] && ChunksOf(db'.columnar, t) == [] && BufferOf(db', t) == []
      && ((t, ID) in db'.indexes ==> db'.indexes[(t, ID)] == map[])
      && forall u :: u != t ==> SameTable(db, db', u)
  {
    var db := RunEvents(cfg, NewSession(catalog), events);
    EmptySessionRowInv(catalog);
    RunEventsKeepsRowInv(cfg, NewSession(catalog), events);
    CreateIsFresh(db.catalog, NamespaceOf(namespace), table, TableSchema(columns), None);
    CreateIsLocal(db, namespace, table, columns);
  }

  /** Over any run, a CREATE under a taken name leaves the old table known by its id, and saving and loading the
      catalog can bring it back under the name. */
  lemma CreatedOverComesBack(cfg: Config, catalog: CatalogState, events: seq<Event>, namespace: Option<string>,
                             table: string, columns: seq<(string, ColumnType)>, hidden: TableMeta)
    requires Consistent(catalog)
    requires FindTable(RunEvents(cfg, NewSession(catalog), events), namespace, table) == Success(hidden)
    ensures
      var db := CreateNew(RunEvents(cfg, NewSession(catalog), events), namespace, table, columns);
      && hidden.id in db.catalog.byId && FindTable(db, namespace, table) != Success(hidden)
      && exists snap :: TakesNameBack(db.catalog, snap, NamespaceOf(namespace), hidden.id)
  {
    var db := RunEvents(cfg, NewSession(catalog), events);
    EmptySessionRowInv(catalog);
    RunEventsKeepsRowInv(cfg, NewSession(catalog), events);
    CreateShadows(db.catalog, NamespaceOf(namespace), table, TableSchema(columns), None, hidden);
  }

  /** Nothing is left of a table except the rows it had in the buffer. */
  ghost predicate Gone(db: Db, t: TableId, leftover: seq<Row>) {
    && t < db.catalog.nextTable && t !in db.catalog.byId
    && TableRows(db.rows, t) == [] && ChunksOf(db.columnar, t) == [] && (t, ID) !in db.indexes
    && BufferOf(db, t) == leftover
  }

  lemma GoneFrame(db: Db, db': Db, t: TableId, leftover: seq<Row>)
    requires Gone(db, t, leftover) && SameTable(db, db', t)
    requires db.catalog.nextTable <= db'.catalog.nextTable && t !in db'.catalog.byId
    ensures Gone(db', t, leftover)
  {
  }

  lemma FlushKeepsGone(db: Db, u: TableId, t: TableId, leftover: seq<Row>)
    requires RowInv(db) && Gone(db, t, leftover) && u in db.catalog.byId
    ensures Gone(FlushBuffer(db, u, db.catalog.byId[u].schema), t, leftover)
  {
    FlushIsLocal(db, u, db.catalog.byId[u].schema);
    GoneFrame(db, FlushBuffer(db, u, db.catalog.byId[u].schema), t, leftover);
  }

  lemma InsertKeepsGone(cfg: Config, db: Db, meta: TableMeta, row: Row, t: TableId, leftover: seq<Row>)
    requires RowInv(db) && Gone(db, t, leftover) && Known(db, meta)
    ensures Gone(InsertOne(cfg, db, meta, row).0, t, leftover)
  {
    InsertIsLocal(cfg, db, meta, row);
    InsertLeavesOthers(cfg, db, meta, row);
    GoneFrame(db, InsertOne(cfg, db, meta, row).0, t, leftover);
  }

  lemma CreateKeepsGone(db: Db, namespace: Option<string>, table: string, columns: seq<(string, ColumnType)>,
                        t: TableId, leftover: seq<Row>)
    requires RowInv(db) && Gone(db, t, leftover)
    ensures Gone(CreateNew(db, namespace, table, columns), t, leftover)
  {
    CreateIsLocal(db, namespace, table, columns);
    CreateEnters(db.catalog, NamespaceOf(namespace), table, TableSchema(columns), None);
    GoneFrame(db, CreateNew(db, namespace, table, columns), t, leftover);
  }

  lemma DropKeepsGone(db: Db, namespace: Option<string>, table: string, meta: TableMeta, t: TableId, leftover: seq<Row>)
    requires RowInv(db) && Gone(db, t, leftover) && FindTable(db, namespace, table) == Success(meta)
    ensures Gone(DropExisting(db, namespace, table, meta), t, leftover)
  {
    FoundIsKnown(db, namespace, table);
    DropIsLocal(db, namespace, table, meta);
    DropRemovesOne(db.catalog, NamespaceOf(namespace), table);
    GoneFrame(db, DropExisting(db, namespace, table, meta), t, leftover);
  }

  ghost predicate SafelyGone(db: Db, t: TableId, leftover: seq<Row>) {
    RowInv(db) && Gone(db, t, leftover)
  }

  lemma GoneIsStable(cfg: Config, t: TableId, leftover: seq<Row>)
    ensures Stable(cfg, db => SafelyGone(db, t, leftover))
  {
    forall db, u | SafelyGone(db, t, leftover) && u in db.catalog.byId
      ensures SafelyGone(FlushBuffer(db, u, db.catalog.byId[u].schema), t, leftover)
    {
      FlushKeepsRowInv(db, u, db.catalog.byId[u].schema);
      FlushKeepsGone(db, u, t, leftover);
    }
    forall db, meta, row | SafelyGone(db, t, leftover) && Known(db, meta)
      ensures SafelyGone(InsertOne(cfg, db, meta, row).0, t, leftover)
    {
      InsertKeepsRowInv(cfg, db, meta, row);
      InsertKeepsGone(cfg, db, meta, row, t, leftover);
    }
    forall db, namespace, table, columns | SafelyGone(db, t, leftover)
      ensures SafelyGone(CreateNew(db, namespace, table, columns), t, leftover)
    {
      CreateKeepsRowInv(db, namespace, table, columns);
      CreateKeepsGone(db, namespace, table, columns, t, leftover);
    }
    forall db, namespace, table, meta | SafelyGone(db, t, leftover) && FindTable(db, namespace, table) == Success(meta)
      ensures SafelyGone(DropExisting(db, namespace, table, meta), t, leftover)
    {
      DropKeepsRowInv(db, namespace, table, meta);
      DropKeepsGone(db, namespace, table, meta, t, leftover);
    }
  }

  lemma DeleteKeepsGone(db: Db, u: TableId, rid: RowId, t: TableId, leftover: seq<Row>)
    requires SafelyGone(db, t, leftover)
    ensures SafelyGone(db.(rows := DeleteRow(db.rows, u, rid)), t, leftover)
  {
    DeleteKeepsRowInv(db, u, rid);
    NoRowsLeft(db.rows, DeleteRow(db.rows, u, rid), t);
  }

  lemma NoRowsLeft(rows: RowState, rows': RowState, t: TableId)
    requires TableRows(rows, t) == [] && IdsGivenOut(rows) && rows'.next == rows.next
    requires forall k :: k in rows'.data ==> k in rows.data
    ensures TableRows(rows', t) == []
  {
    RidsMembers(rows.data, t, rows.next);
    RidsMembers(rows'.data, t, rows'.next);
  }

  lemma EventsKeepGone(cfg: Config, db: Db, events: seq<Event>, t: TableId, leftover: seq<Row>)
    requires SafelyGone(db, t, leftover)
    ensures SafelyGone(RunEvents(cfg, db, events), t, leftover)
  {
    GoneIsStable(cfg, t, leftover);
    forall x, u, rid | SafelyGone(x, t, leftover)
      ensures SafelyGone(x.(rows := DeleteRow(x.rows, u, rid)), t, leftover)
    {
      DeleteKeepsGone(x, u, rid, t, leftover);
    }
    EventsKeep(cfg, x => SafelyGone(x, t, leftover), db, events);
  }

  /** Whatever runs before and after a DROP, document deletes included: its table id never bears a row, a
      chunk or an index again, and the rows that were left in the buffer are never published. */
  lemma DroppedStaysGone(cfg: Config, catalog: CatalogState, before: seq<Event>, after: seq<Event>,
                         namespace: Option<string>, table: string, meta: TableMeta)
    requires Consistent(catalog)
    requires FindTable(RunEvents(cfg, NewSession(catalog), before), namespace, table) == Success(meta)
    ensures
      var db := RunEvents(cfg, NewSession(catalog), before);
      Gone(RunEvents(cfg, DropExisting(db, namespace, table, meta), after), meta.id, BufferOf(db, meta.id))
  {
    var db := RunEvents(cfg, NewSession(catalog), before);
    EmptySessionRowInv(catalog);
    RunEventsKeepsRowInv(cfg, NewSession(catalog), before);
    FoundIsKnown(db, namespace, table);
    DropKeepsRowInv(db, namespace, table, meta);
    DropIsLocal(db, namespace, table, meta);
    DropRemovesOne(db.catalog, NamespaceOf(namespace), table);
    EventsKeepGone(cfg, DropExisting(db, namespace, table, meta), after, meta.id, BufferOf(db, meta.id));
  }
}
