/** Namespaces and tables, their identifiers, and the snapshot that is saved and loaded. */
module Catalogs {
  import opened Schemas
  import opened Seqs
  import opened Values

  type NamespaceId = nat

  datatype TableMeta = TableMeta(
    id: TableId,
    namespaceId: NamespaceId,
    name: string,
    schema: Schema,
    storageFormat: string)

  datatype CatalogState = CatalogState(
    nextNamespace: NamespaceId,
    nextTable: TableId,
    namespaces: map<string, NamespaceId>,
    byName: map<(NamespaceId, string), TableMeta>,
    byId: map<TableId, TableMeta>)

  const EMPTY_CATALOG := CatalogState(0, 0, map[], map[], map[])

  function WithNamespace(c: CatalogState, name: string): CatalogState {
    if name in c.namespaces then c
    else c.(nextNamespace := c.nextNamespace + 1, namespaces := c.namespaces[name := c.nextNamespace])
  }

  function NewMeta(c: CatalogState, namespace: string, name: string, schema: Schema, format: Option<string>)
    : TableMeta
  {
    var c' := WithNamespace(c, namespace);
    TableMeta(c.nextTable, c'.namespaces[namespace], name, schema, if format.Some? then format.value else "row")
  }

  function WithTable(c: CatalogState, namespace: string, name: string, schema: Schema, format: Option<string>)
    : CatalogState
  {
    var c' := WithNamespace(c, namespace);
    var meta := NewMeta(c, namespace, name, schema, format);
    c'.(nextTable := c.nextTable + 1,
        byName := c'.byName[(meta.namespaceId, name) := meta],
        byId := c'.byId[meta.id := meta])
  }

  function LookupTable(c: CatalogState, namespace: string, name: string): Option<TableMeta> {
    if namespace !in c.namespaces then None
    else
      var key := (c.namespaces[namespace], name);
      if key in c.byName then Some(c.byName[key]) else None
  }

  function WithoutTable(c: CatalogState, namespace: string, name: string): CatalogState {
    match LookupTable(c, namespace, name)
    case None => c
    case Some(meta) =>
      c.(byName := c.byName - {(c.namespaces[namespace], name)}, byId := c.byId - {meta.id})
  }

  ghost predicate NamespaceExists(namespaces: map<string, NamespaceId>, id: NamespaceId) {
    exists n :: n in namespaces && namespaces[n] == id
  }

  ghost predicate NamespacesOk(namespaces: map<string, NamespaceId>, next: NamespaceId) {
    && (forall n :: n in namespaces ==> namespaces[n] < next)
    && (forall m, n :: m in namespaces && n in namespaces && namespaces[m] == namespaces[n] ==> m == n)
  }

  /** A name finds a table that bears it and that is also found by its id. */
  ghost predicate NamesOk(byName: map<(NamespaceId, string), TableMeta>, byId: map<TableId, TableMeta>) {
    forall k :: k in byName ==>
      && byName[k].namespaceId == k.0 && byName[k].name == k.1
      && byName[k].id in byId && byId[byName[k].id] == byName[k]
  }

  ghost predicate TablesOk(byId: map<TableId, TableMeta>, next: TableId, namespaces: map<string, NamespaceId>) {
    forall id :: id in byId ==>
      byId[id].id == id && id < next && Indexed(byId[id].schema) && NamespaceExists(namespaces, byId[id].namespaceId)
  }

  /** What every catalog satisfies that was built by these operations. */
  ghost predicate Consistent(c: CatalogState) {
    && NamespacesOk(c.namespaces, c.nextNamespace)
    && NamesOk(c.byName, c.byId)
    && TablesOk(c.byId, c.nextTable, c.namespaces)
  }

  lemma NamespacesGrow(byId: map<TableId, TableMeta>, next: TableId, namespaces: map<string, NamespaceId>,
                       name: string, id: NamespaceId)
    requires TablesOk(byId, next, namespaces) && name !in namespaces
    ensures TablesOk(byId, next, namespaces[name := id])
  {
    forall t | t in byId ensures NamespaceExists(namespaces[name := id], byId[t].namespaceId) {
      var n :| n in namespaces && namespaces[n] == byId[t].namespaceId;
      assert n in namespaces[name := id] && namespaces[name := id][n] == byId[t].namespaceId;
    }
  }

  lemma NamespaceConsistent(c: CatalogState, namespace: string)
    requires Consistent(c)
    ensures Consistent(WithNamespace(c, namespace))
  {
    if namespace !in c.namespaces {
      NamespacesGrow(c.byId, c.nextTable, c.namespaces, namespace, c.nextNamespace);
    }
  }

  /** A new namespace has no tables yet. */
  lemma NamespaceIsEmpty(c: CatalogState, namespace: string)
    requires Consistent(c)
    ensures forall ns, n :: LookupTable(WithNamespace(c, namespace), ns, n) == LookupTable(c, ns, n)
  {
    forall k | k in c.byName ensures k.0 < c.nextNamespace {
      assert NamespaceExists(c.namespaces, c.byName[k].namespaceId);
    }
  }

  function Entered(c: CatalogState, meta: TableMeta): CatalogState {
    c.(nextTable := c.nextTable + 1, byName := c.byName[(meta.namespaceId, meta.name) := meta],
       byId := c.byId[meta.id := meta])
  }

  lemma EnteredConsistent(c: CatalogState, meta: TableMeta)
    requires Consistent(c) && meta.id == c.nextTable
    requires Indexed(meta.schema) && NamespaceExists(c.namespaces, meta.namespaceId)
    ensures Consistent(Entered(c, meta)) && meta.id !in c.byId
  {
  }

  lemma EnteredLookups(c: CatalogState, namespace: string, meta: TableMeta)
    requires Consistent(c) && namespace in c.namespaces && c.namespaces[namespace] == meta.namespaceId
    ensures LookupTable(Entered(c, meta), namespace, meta.name) == Some(meta)
    ensures forall ns, n :: (ns, n) != (namespace, meta.name) ==>
      LookupTable(Entered(c, meta), ns, n) == LookupTable(c, ns, n)
  {
  }

  lemma CreateEnters(c: CatalogState, namespace: string, name: string, schema: Schema, format: Option<string>)
    requires Consistent(c) && Indexed(schema)
    ensures
      var c' := WithTable(c, namespace, name, schema, format);
      var meta := NewMeta(c, namespace, name, schema, format);
      && Consistent(c') && meta.id == c.nextTable && meta.id !in c.byId && meta.schema == schema
      && c'.byId == c.byId[meta.id := meta] && c'.nextTable == c.nextTable + 1
  {
    var c1, meta := WithNamespace(c, namespace), NewMeta(c, namespace, name, schema, format);
    NamespaceConsistent(c, namespace);
    assert NamespaceExists(c1.namespaces, meta.namespaceId);
    EnteredConsistent(c1, meta);
    assert WithTable(c, namespace, name, schema, format) == Entered(c1, meta);
  }

  /** A CREATE gives an id never used before, found by name and by id; every other name and id keeps
      its table, and the created name now means the new one. */
  lemma CreateIsFresh(c: CatalogState, namespace: string, name: string, schema: Schema, format: Option<string>)
    requires Consistent(c) && Indexed(schema)
    ensures
      var c' := WithTable(c, namespace, name, schema, format);
      var meta := NewMeta(c, namespace, name, schema, format);
      && Consistent(c')
      && meta.id !in c.byId && meta.schema == schema
      && LookupTable(c', namespace, name) == Some(meta)
      && c'.byId == c.byId[meta.id := meta]
      && forall ns, n :: (ns, n) != (namespace, name) ==> LookupTable(c', ns, n) == LookupTable(c, ns, n)
  {
    var c1, meta := WithNamespace(c, namespace), NewMeta(c, namespace, name, schema, format);
    CreateEnters(c, namespace, name, schema, format);
    NamespaceConsistent(c, namespace);
    NamespaceIsEmpty(c, namespace);
    EnteredLookups(c1, namespace, meta);
    assert WithTable(c, namespace, name, schema, format) == Entered(c1, meta);
  }

  /** A DROP removes the table that the name means, and no other. */
  lemma DropRemovesOne(c: CatalogState, namespace: string, name: string)
    requires Consistent(c)
    ensures
      var c' := WithoutTable(c, namespace, name);
      && Consistent(c')
      && LookupTable(c', namespace, name) == None
      && c'.byId == match LookupTable(c, namespace, name) {
           case Some(meta) => c.byId - {meta.id}
           case None => c.byId
         }
      && forall ns, n :: (ns, n) != (namespace, name) ==> LookupTable(c', ns, n) == LookupTable(c, ns, n)
  {
    var c' := WithoutTable(c, namespace, name);
    if LookupTable(c, namespace, name).Some? {
      var meta := LookupTable(c, namespace, name).value;
      forall k | k in c'.byName ensures c.byName[k].id != meta.id {
        assert c.byId[c.byName[k].id] == c.byName[k];
      }
    }
  }

  // ----- snapshots

  datatype Snapshot = Snapshot(namespaces: seq<(string, NamespaceId)>, tables: seq<TableMeta>)

  /** `snap` lists the entries of both maps, each once, in any order. */
  ghost predicate IsSnapshotOf(snap: Snapshot, c: CatalogState) {
    && Distinct(snap.namespaces)
    && (forall p :: p in snap.namespaces <==> p.0 in c.namespaces && c.namespaces[p.0] == p.1)
    && Distinct(snap.tables)
    && (forall m :: m in snap.tables <==> m.id in c.byId && c.byId[m.id] == m)
  }

  /** What is read back from disk: the name lookup of each schema is not written. */
  function Stored(snap: Snapshot): Snapshot {
    snap.(tables := Map((m: TableMeta) => m.(schema := Serialized(m.schema)), snap.tables))
  }

  function Reloaded(m: TableMeta): TableMeta {
    m.(schema := Rebuilt(m.schema))
  }

  function MaxId(ids: seq<nat>): nat {
    if ids == [] then 0
    else
      var m, x := MaxId(ids[..|ids| - 1]), ids[|ids| - 1];
      if x > m then x else m
  }

  lemma {:induction false} MaxIdBounds(ids: seq<nat>)
    ensures forall x :: x in ids ==> x <= MaxId(ids)
  {
    if ids != [] {
      var front := ids[..|ids| - 1];
      MaxIdBounds(front);
      assert ids == front + [ids[|ids| - 1]];
    }
  }

  function LoadNamespaces(ps: seq<(string, NamespaceId)>): map<string, NamespaceId> {
    if ps == [] then map[]
    else LoadNamespaces(ps[..|ps| - 1])[ps[|ps| - 1].0 := ps[|ps| - 1].1]
  }

  function LoadByName(ms: seq<TableMeta>): map<(NamespaceId, string), TableMeta> {
    if ms == [] then map[]
    else
      var m := ms[|ms| - 1];
      LoadByName(ms[..|ms| - 1])[(m.namespaceId, m.name) := Reloaded(m)]
  }

  function LoadById(ms: seq<TableMeta>): map<TableId, TableMeta> {
    if ms == [] then map[]
    else LoadById(ms[..|ms| - 1])[ms[|ms| - 1].id := Reloaded(ms[|ms| - 1])]
  }

  function Load(snap: Snapshot): CatalogState {
    CatalogState(
      MaxId(Map((p: (string, NamespaceId)) => p.1, snap.namespaces)) + 1,
      MaxId(Map((m: TableMeta) => m.id, snap.tables)) + 1,
      LoadNamespaces(snap.namespaces), LoadByName(snap.tables), LoadById(snap.tables))
  }

  /** A table that is known by its id only, its name being another's. */
  predicate Shadowed(c: CatalogState, id: TableId) {
    id in c.byId &&
    var k := (c.byId[id].namespaceId, c.byId[id].name);
    k !in c.byName || c.byName[k] != c.byId[id]
  }

  /** Every table known by id is the one its name means. */
  ghost predicate Unshadowed(c: CatalogState) {
    forall id :: id in c.byId ==> !Shadowed(c, id)
  }

  lemma {:induction false} LoadNamespacesEntries(ps: seq<(string, NamespaceId)>, ns: map<string, NamespaceId>)
    requires forall p :: p in ps ==> p.0 in ns && ns[p.0] == p.1
    ensures forall n :: n in LoadNamespaces(ps) <==> exists p :: p in ps && p.0 == n
    ensures forall n :: n in LoadNamespaces(ps) ==> n in ns && LoadNamespaces(ps)[n] == ns[n]
  {
    if ps != [] {
      var front, p := ps[..|ps| - 1], ps[|ps| - 1];
      assert ps == front + [p];
      LoadNamespacesEntries(front, ns);
    }
  }

  lemma {:induction false} LoadByIdEntries(ms: seq<TableMeta>, byId: map<TableId, TableMeta>)
    requires forall m :: m in ms ==> m.id in byId && byId[m.id] == Reloaded(m)
    ensures forall id :: id in LoadById(ms) <==> exists m :: m in ms && m.id == id
    ensures forall id :: id in LoadById(ms) ==> id in byId && LoadById(ms)[id] == byId[id]
  {
    if ms != [] {
      var front, m := ms[..|ms| - 1], ms[|ms| - 1];
      assert ms == front + [m];
      LoadByIdEntries(front, byId);
    }
  }

  lemma {:induction false} LoadByNameEntries(ms: seq<TableMeta>)
    ensures forall k :: k in LoadByName(ms) <==> exists m :: m in ms && (m.namespaceId, m.name) == k
    ensures forall k :: k in LoadByName(ms) ==>
      exists m :: m in ms && (m.namespaceId, m.name) == k && LoadByName(ms)[k] == Reloaded(m)
  {
    if ms != [] {
      var front, m := ms[..|ms| - 1], ms[|ms| - 1];
      assert ms == front + [m];
      LoadByNameEntries(front);
    }
  }

  /** A stored table reads back as it was saved. */
  lemma ReloadRestores(c: CatalogState, snap: Snapshot)
    requires Consistent(c) && IsSnapshotOf(snap, c)
    ensures forall m :: m in Stored(snap).tables ==> m.id in c.byId && c.byId[m.id] == Reloaded(m)
    ensures forall id :: id in c.byId ==> exists m :: m in Stored(snap).tables && m.id == id
  {
    var f := (m: TableMeta) => m.(schema := Serialized(m.schema));
    var ms := Stored(snap).tables;
    forall m | m in ms ensures m.id in c.byId && c.byId[m.id] == Reloaded(m) {
      var i :| 0 <= i < |ms| && ms[i] == m;
      assert snap.tables[i] in snap.tables;
    }
    forall id | id in c.byId ensures exists m :: m in ms && m.id == id {
      MapMember(f, snap.tables, c.byId[id]);
      assert f(c.byId[id]).id == id;
    }
  }

  lemma TablesRestored(c: CatalogState, snap: Snapshot)
    requires Consistent(c) && IsSnapshotOf(snap, c)
    ensures Load(Stored(snap)).byId == c.byId
  {
    ReloadRestores(c, snap);
    LoadByIdEntries(Stored(snap).tables, c.byId);
    assert Load(Stored(snap)).byId == c.byId;
  }

  lemma NamespacesRestored(c: CatalogState, snap: Snapshot)
    requires Consistent(c) && IsSnapshotOf(snap, c)
    ensures Load(Stored(snap)).namespaces == c.namespaces
  {
    var l := Load(Stored(snap));
    LoadNamespacesEntries(snap.namespaces, c.namespaces);
    forall n | n in c.namespaces ensures n in l.namespaces {
      assert (n, c.namespaces[n]) in snap.namespaces;
    }
    assert l.namespaces == c.namespaces;
  }

  /** The names are those of the tables, and each means one of the tables that bear it. */
  ghost predicate NamesTables(byName: map<(NamespaceId, string), TableMeta>, byId: map<TableId, TableMeta>) {
    && (forall id :: id in byId ==> (byId[id].namespaceId, byId[id].name) in byName)
    && (forall k :: k in byName ==> byName[k] in byId.Values && (byName[k].namespaceId, byName[k].name) == k)
  }

  /** When `ms` lists the tables of `byId`, the names loaded are theirs, and each means one of them. */
  lemma NamesLoaded(ms: seq<TableMeta>, byId: map<TableId, TableMeta>)
    requires forall m :: m in ms ==> m.id in byId && byId[m.id] == Reloaded(m)
    requires forall id :: id in byId ==> exists m :: m in ms && m.id == id
    ensures NamesTables(LoadByName(ms), byId)
  {
    var byName := LoadByName(ms);
    LoadByNameEntries(ms);
    forall k | k in byName ensures byName[k] in byId.Values && (byName[k].namespaceId, byName[k].name) == k {
      var m :| m in ms && (m.namespaceId, m.name) == k && byName[k] == Reloaded(m);
      assert byId[m.id] == Reloaded(m);
    }
    forall id | id in byId ensures (byId[id].namespaceId, byId[id].name) in byName {
      var m :| m in ms && m.id == id;
      assert byId[m.id] == Reloaded(m);
    }
  }

  lemma NamesRestored(c: CatalogState, snap: Snapshot)
    requires Consistent(c) && IsSnapshotOf(snap, c)
    ensures NamesTables(Load(Stored(snap)).byName, c.byId)
  {
    ReloadRestores(c, snap);
    NamesLoaded(Stored(snap).tables, c.byId);
  }

  lemma TableCounterAbove(c: CatalogState, snap: Snapshot)
    requires Consistent(c) && IsSnapshotOf(snap, c)
    ensures forall id :: id in c.byId ==> id < Load(Stored(snap)).nextTable
  {
    var ms := Stored(snap).tables;
    var idOf := (m: TableMeta) => m.id;
    MaxIdBounds(Map(idOf, ms));
    ReloadRestores(c, snap);
    forall id | id in c.byId ensures id < Load(Stored(snap)).nextTable {
      var m :| m in ms && m.id == id;
      MapMember(idOf, ms, m);
    }
  }

  lemma NamespaceCounterAbove(c: CatalogState, snap: Snapshot)
    requires IsSnapshotOf(snap, c)
    ensures forall n :: n in c.namespaces ==> c.namespaces[n] < Load(Stored(snap)).nextNamespace
  {
    var idOf := (p: (string, NamespaceId)) => p.1;
    MaxIdBounds(Map(idOf, snap.namespaces));
    forall n | n in c.namespaces ensures c.namespaces[n] < Load(Stored(snap)).nextNamespace {
      MapMember(idOf, snap.namespaces, (n, c.namespaces[n]));
    }
  }

  /** Whatever order the maps are listed in, loading a saved catalog restores the namespaces and the
      tables by id with their column lookups, gives counters above every id in use, and makes each
      name mean some table saved under it. */
  lemma RoundTrip(c: CatalogState, snap: Snapshot)
    requires Consistent(c) && IsSnapshotOf(snap, c)
    ensures
      var l := Load(Stored(snap));
      && l.namespaces == c.namespaces && l.byId == c.byId
      && (forall id :: id in c.byId ==> id < l.nextTable)
      && (forall n :: n in c.namespaces ==> c.namespaces[n] < l.nextNamespace)
      && NamesTables(l.byName, c.byId)
  {
    TablesRestored(c, snap);
    NamespacesRestored(c, snap);
    NamesRestored(c, snap);
    TableCounterAbove(c, snap);
    NamespaceCounterAbove(c, snap);
  }

  /** A loaded catalog can be worked on like one that was built. */
  lemma LoadIsConsistent(c: CatalogState, snap: Snapshot)
    requires Consistent(c) && IsSnapshotOf(snap, c)
    ensures Consistent(Load(Stored(snap)))
  {
    var l := Load(Stored(snap));
    RoundTrip(c, snap);
    forall k | k in l.byName ensures l.byName[k].id in l.byId && l.byId[l.byName[k].id] == l.byName[k] {
      var id :| id in c.byId && c.byId[id] == l.byName[k];
      assert c.byId[id].id == id;
    }
  }

  ghost predicate SameLookups(c: CatalogState, d: CatalogState) {
    forall ns, n :: LookupTable(c, ns, n) == LookupTable(d, ns, n)
  }

  ghost predicate LookupsSurviveReload(c: CatalogState) {
    forall snap :: IsSnapshotOf(snap, c) ==> SameLookups(Load(Stored(snap)), c)
  }

  /** Lookups by name survive saving and loading in every listing order exactly when no table is
      shadowed, that is, known by id only because another was created under its name. */
  lemma LookupsSurviveIffUnshadowed(c: CatalogState)
    requires Consistent(c)
    ensures LookupsSurviveReload(c) <==> Unshadowed(c)
  {
    if Unshadowed(c) {
      forall snap | IsSnapshotOf(snap, c) ensures SameLookups(Load(Stored(snap)), c) {
        UnshadowedSurvives(c, snap);
      }
    } else {
      var id :| Shadowed(c, id);
      ShadowedReturns(c, id);
    }
  }

  lemma UnshadowedSurvives(c: CatalogState, snap: Snapshot)
    requires Consistent(c) && IsSnapshotOf(snap, c) && Unshadowed(c)
    ensures SameLookups(Load(Stored(snap)), c)
  {
    var l := Load(Stored(snap));
    RoundTrip(c, snap);
    forall k ensures k in l.byName <==> k in c.byName {
      if k in c.byName {
        assert c.byName[k].id in c.byId;
      }
    }
    forall k | k in l.byName ensures l.byName[k] == c.byName[k] {
      var id :| id in c.byId && c.byId[id] == l.byName[k];
    }
  }

  /** After saving in this order and loading, the name finds the table with this id, which it did not before. */
  ghost predicate TakesNameBack(c: CatalogState, snap: Snapshot, ns: string, id: TableId)
    requires id in c.byId
  {
    && IsSnapshotOf(snap, c)
    && LookupTable(Load(Stored(snap)), ns, c.byId[id].name) == Some(c.byId[id])
    && LookupTable(c, ns, c.byId[id].name) != Some(c.byId[id])
  }

  lemma ListedLastReturns(c: CatalogState, id: TableId, ns: string)
    requires Consistent(c) && Shadowed(c, id) && ns in c.namespaces && c.namespaces[ns] == c.byId[id].namespaceId
    ensures exists snap :: TakesNameBack(c, snap, ns, id)
    ensures !LookupsSurviveReload(c)
  {
    var snap := ListedLast(c, id);
    RoundTrip(c, snap);
    LastTakesName(c, snap, c.byId[id]);
    assert TakesNameBack(c, snap, ns, id);
    assert !SameLookups(Load(Stored(snap)), c);
  }

  /** Listed last, a shadowed table takes the name over. */
  lemma ShadowedReturns(c: CatalogState, id: TableId)
    requires Consistent(c) && Shadowed(c, id)
    ensures exists snap, ns :: TakesNameBack(c, snap, ns, id)
    ensures !LookupsSurviveReload(c)
  {
    assert NamespaceExists(c.namespaces, c.byId[id].namespaceId);
    var ns :| ns in c.namespaces && c.namespaces[ns] == c.byId[id].namespaceId;
    ListedLastReturns(c, id, ns);
  }

  /** A CREATE over a taken name shadows the table that had it, which a reload may bring back under it. */
  lemma CreateShadows(c: CatalogState, namespace: string, name: string, schema: Schema, format: Option<string>,
                      hidden: TableMeta)
    requires Consistent(c) && Indexed(schema) && LookupTable(c, namespace, name) == Some(hidden)
    ensures
      var c' := WithTable(c, namespace, name, schema, format);
      && Shadowed(c', hidden.id) && c'.byId[hidden.id] == hidden
      && exists snap :: TakesNameBack(c', snap, namespace, hidden.id)
  {
    CreateIsFresh(c, namespace, name, schema, format);
    ListedLastReturns(WithTable(c, namespace, name, schema, format), hidden.id, namespace);
  }

  /** A saving order that lists one table last. */
  lemma ListedLast(c: CatalogState, id: TableId) returns (snap: Snapshot)
    requires Consistent(c) && id in c.byId
    ensures IsSnapshotOf(snap, c) && snap.tables != [] && snap.tables[|snap.tables| - 1] == c.byId[id]
  {
    var namespaces := ListNamespaces(c.namespaces, c.namespaces.Keys);
    var others := ListTables(c, c.byId.Keys - {id});
    snap := Snapshot(namespaces, others + [c.byId[id]]);
  }

  lemma LastTakesName(c: CatalogState, snap: Snapshot, meta: TableMeta)
    requires snap.tables != [] && snap.tables[|snap.tables| - 1] == meta && Indexed(meta.schema)
    ensures var l := Load(Stored(snap)); var k := (meta.namespaceId, meta.name);
      k in l.byName && l.byName[k] == meta
  {
    var ms := Stored(snap).tables;
    assert Reloaded(ms[|ms| - 1]) == meta;
  }

  lemma {:induction false} ListNamespaces(m: map<string, NamespaceId>, names: set<string>)
    returns (ps: seq<(string, NamespaceId)>)
    requires names <= m.Keys
    ensures Distinct(ps) && forall p :: p in ps <==> p.0 in names && m[p.0] == p.1
    decreases |names|
  {
    ps := [];
    if names != {} {
      var n :| n in names;
      var rest := ListNamespaces(m, names - {n});
      ps := rest + [(n, m[n])];
    }
  }

  lemma {:induction false} ListTables(c: CatalogState, ids: set<TableId>) returns (ms: seq<TableMeta>)
    requires Consistent(c) && ids <= c.byId.Keys
    ensures Distinct(ms) && forall m :: m in ms <==> m.id in ids && c.byId[m.id] == m
    decreases |ids|
  {
    ms := [];
    if ids != {} {
      var id :| id in ids;
      var rest := ListTables(c, ids - {id});
      ms := rest + [c.byId[id]];
    }
  }

  class Catalog {
    var nextNamespaceId: NamespaceId
    var nextTableId: TableId
    var namespaces: map<string, NamespaceId>
    var tablesByName: map<(NamespaceId, string), TableMeta>
    var tablesById: map<TableId, TableMeta>

    constructor ()
      ensures State() == EMPTY_CATALOG
    {
      nextNamespaceId, nextTableId := 0, 0;
      namespaces, tablesByName, tablesById := map[], map[], map[];
    }

    ghost function State(): CatalogState
      reads this
    {
      CatalogState(nextNamespaceId, nextTableId, namespaces, tablesByName, tablesById)
    }

    method CreateNamespace(name: string) returns (id: NamespaceId)
      modifies this
      ensures State() == WithNamespace(old(State()), name)
      ensures name in namespaces && id == namespaces[name]
    {
      if name in namespaces {
        return namespaces[name];
      }
      id := nextNamespaceId;
      nextNamespaceId := nextNamespaceId + 1;
      namespaces := namespaces[name := id];
    }

    method CreateTable(namespace: string, name: string, schema: Schema, format: Option<string>)
      returns (meta: TableMeta)
      modifies this
      ensures State() == WithTable(old(State()), namespace, name, schema, format)
      ensures meta == NewMeta(old(State()), namespace, name, schema, format)
    {
      var namespaceId := CreateNamespace(namespace);
      var id := nextTableId;
      nextTableId := nextTableId + 1;
      meta := TableMeta(id, namespaceId, name, schema, "row");
      if format.Some? {
        meta := meta.(storageFormat := format.value);
      }
      tablesByName := tablesByName[(namespaceId, name) := meta];
      tablesById := tablesById[id := meta];
    }

    method GetTable(namespace: string, name: string) returns (r: Option<TableMeta>)
      ensures r == LookupTable(State(), namespace, name)
    {
      if namespace !in namespaces || (namespaces[namespace], name) !in tablesByName {
        return None;
      }
      r := Some(tablesByName[(namespaces[namespace], name)]);
    }

    method DropTable(namespace: string, name: string) returns (r: Option<TableMeta>)
      modifies this
      ensures r == LookupTable(old(State()), namespace, name)
      ensures State() == WithoutTable(old(State()), namespace, name)
    {
      r := GetTable(namespace, name);
      if r.Some? {
        tablesByName := tablesByName - {(namespaces[namespace], name)};
        tablesById := tablesById - {r.value.id};
      }
    }

    /** Lists both maps in some order. */
    method ToSnapshot() returns (snap: Snapshot)
      requires Consistent(State())
      ensures IsSnapshotOf(snap, State())
    {
      var spaces: seq<(string, NamespaceId)>, left := [], namespaces.Keys;
      while left != {}
        invariant left <= namespaces.Keys && Distinct(spaces)
        invariant forall p :: p in spaces <==> p.0 in namespaces.Keys - left && namespaces[p.0] == p.1
        decreases |left|
      {
        var n :| n in left;
        spaces := spaces + [(n, namespaces[n])];
        left := left - {n};
      }
      var tables: seq<TableMeta>, ids := [], tablesById.Keys;
      while ids != {}
        invariant ids <= tablesById.Keys && Distinct(tables)
        invariant forall m :: m in tables <==> m.id in tablesById.Keys - ids && tablesById[m.id] == m
        decreases |ids|
      {
        var id :| id in ids;
        tables := tables + [tablesById[id]];
        ids := ids - {id};
      }
      snap := Snapshot(spaces, tables);
    }

    /** Enters the namespaces one by one, and returns the greatest of their ids. */
    method LoadNamespaceEntries(entries: seq<(string, NamespaceId)>) returns (max: nat)
      requires namespaces == map[]
      modifies this`namespaces
      ensures namespaces == LoadNamespaces(entries)
      ensures max == MaxId(Map((p: (string, NamespaceId)) => p.1, entries))
    {
      max := 0;
      ghost var ids := Map((p: (string, NamespaceId)) => p.1, entries);
      for i := 0 to |entries|
        invariant max == MaxId(ids[..i]) && namespaces == LoadNamespaces(entries[..i])
      {
        var (name, id) := entries[i];
        assert entries[..i + 1][..i] == entries[..i] && ids[..i + 1][..i] == ids[..i];
        max := if id > max then id else max;
        namespaces := namespaces[name := id];
      }
      assert entries[..|entries|] == entries && ids[..|ids|] == ids;
    }

    /** Enters the tables one by one under name and id, their lookups rebuilt; returns their greatest id. */
    method LoadTableEntries(entries: seq<TableMeta>) returns (max: nat)
      requires tablesByName == map[] && tablesById == map[]
      modifies this`tablesByName, this`tablesById
      ensures tablesByName == LoadByName(entries) && tablesById == LoadById(entries)
      ensures max == MaxId(Map((m: TableMeta) => m.id, entries))
    {
      max := 0;
      ghost var ids := Map((m: TableMeta) => m.id, entries);
      for i := 0 to |entries|
        invariant max == MaxId(ids[..i])
        invariant tablesByName == LoadByName(entries[..i]) && tablesById == LoadById(entries[..i])
      {
        var meta := entries[i];
        assert entries[..i + 1][..i] == entries[..i] && ids[..i + 1][..i] == ids[..i];
        max := if meta.id > max then meta.id else max;
        meta := meta.(schema := Rebuilt(meta.schema));
        tablesByName := tablesByName[(meta.namespaceId, meta.name) := meta];
        tablesById := tablesById[meta.id := meta];
      }
      assert entries[..|entries|] == entries && ids[..|ids|] == ids;
    }

    method LoadSnapshot(snap: Snapshot)
      modifies this
      ensures State() == Load(snap)
    {
      namespaces, tablesByName, tablesById := map[], map[], map[];
      var maxNamespace := LoadNamespaceEntries(snap.namespaces);
      var maxTable := LoadTableEntries(snap.tables);
      nextNamespaceId, nextTableId := maxNamespace + 1, maxTable + 1;
    }
  }
}
