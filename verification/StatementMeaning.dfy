/** What CREATE and INSERT leave and report, read off their columns and rows. */
module StatementMeaning {
  import opened Catalogs
  import opened Engine
  import opened IndexKeys
  import opened Invariants
  import opened Plans
  import opened Refinement
  import opened Schemas
  import opened Seqs
  import opened TableStores
  import opened Values

  /** The schema has the columns listed, in their order, and a name means the last that bears it. */
  ghost predicate HasColumns(schema: Schema, columns: seq<(string, ColumnType)>) {
    && |schema.columns| == |columns|
    && (forall k :: 0 <= k < |columns| ==> schema.columns[k] == Column(columns[k].0, columns[k].1, true))
    && (forall name :: IsLastNamed(columns, name, ColumnIndex(schema, name)))
  }

  predicate IsLastNamed(columns: seq<(string, ColumnType)>, name: string, place: Option<nat>) {
    match place
    case Some(i) => i < |columns| && columns[i].0 == name && forall j :: i < j < |columns| ==> columns[j].0 != name
    case None => forall k :: 0 <= k < |columns| ==> columns[k].0 != name
  }

  lemma SchemaMeans(columns: seq<(string, ColumnType)>)
    ensures HasColumns(TableSchema(columns), columns)
  {
    var made := TableSchema(columns).columns;
    forall name ensures IsLastNamed(columns, name, ColumnIndex(TableSchema(columns), name)) {
      ColumnIndexIsLast(made, name);
      assert forall k :: 0 <= k < |columns| ==> made[k].name == columns[k].0;
    }
  }

  predicate Names(columns: seq<(string, ColumnType)>, name: string) {
    exists k :: 0 <= k < |columns| && columns[k].0 == name
  }

  lemma CreateIndexes(db: Db, namespace: Option<string>, table: string, columns: seq<(string, ColumnType)>)
    ensures CreateNew(db, namespace, table, columns).indexes ==
      if Names(columns, "id") then db.indexes[(db.catalog.nextTable, "id") := map[]] else db.indexes
  {
    SchemaMeans(columns);
    assert IsLastNamed(columns, "id", ColumnIndex(TableSchema(columns), "id"));
  }

  lemma CreateCatalog(db: Db, namespace: string, table: string, columns: seq<(string, ColumnType)>)
    requires Consistent(db.catalog)
    ensures
      var found := LookupTable(WithTable(db.catalog, namespace, table, TableSchema(columns), None), namespace, table);
      && found.Some? && found.value.id == db.catalog.nextTable && found.value.id !in db.catalog.byId
      && HasColumns(found.value.schema, columns) && found.value.name == table && found.value.storageFormat == "row"
  {
    SchemaMeans(columns);
    CreateIsFresh(db.catalog, namespace, table, TableSchema(columns), None);
  }

  /** Executing CREATE: under its name, in the namespace "public" if it names none, there is a table with a new
      id and the columns of the statement, and an empty index exactly if one of them is called `id`. */
  lemma CreateMeans(cfg: Config, db: Db, namespace: Option<string>, table: string,
                    columns: seq<(string, ColumnType)>)
    requires Consistent(db.catalog)
    ensures
      var (db', r) := Exec(cfg, db, CreateTable(table, namespace, columns));
      var found := LookupTable(db'.catalog, if namespace.Some? then namespace.value else "public", table);
      && r == Success(RowsAffected(0)) && found.Some? && found.value.id !in db.catalog.byId
      && HasColumns(found.value.schema, columns) && found.value.name == table && found.value.storageFormat == "row"
      && db'.indexes == if Names(columns, "id") then db.indexes[(found.value.id, "id") := map[]] else db.indexes
  {
    CreateIndexes(db, namespace, table, columns);
    CreateCatalog(db, NamespaceOf(namespace), table, columns);
  }

  // ----- INSERT

  /** The cell under the table's index, if it has one, is an integer, a string or a boolean. */
  predicate CanBeIndexed(c: Option<nat>, row: Row) {
    c.Some? && c.value < |row| ==> row[c.value].Int64? || row[c.value].Str? || row[c.value].Bool?
  }

  predicate AllIndexable(c: Option<nat>, rows: seq<Row>) {
    forall k :: 0 <= k < |rows| ==> CanBeIndexed(c, rows[k])
  }

  /** Row `k` is the first that cannot be indexed. */
  predicate StopsAt(c: Option<nat>, values: seq<Row>, k: nat) {
    k < |values| && AllIndexable(c, values[..k]) && !CanBeIndexed(c, values[k])
  }

  /** A table with its indexed column and its rows. */
  ghost predicate TableIs(db: Db, meta: TableMeta, c: Option<nat>, rows: seq<Row>) {
    && RowInv(db) && Known(db, meta)
    && IndexedColumn(db, meta.id) == c && TableRows(db.rows, meta.id) == rows
  }

  lemma InsertFailsOn(cfg: Config, db: Db, meta: TableMeta, row: Row)
    requires Known(db, meta)
    ensures InsertOne(cfg, db, meta, row).1
         == if CanBeIndexed(IndexedColumn(db, meta.id), row) then None else Some(NotIndexable)
  {
    IdCellIsIndexed(db, meta, row);
  }

  /** A property of a session and the rows of a table that each inserted row carries on. */
  ghost predicate Grows(cfg: Config, meta: TableMeta, c: Option<nat>, holds: (Db, seq<Row>) -> bool) {
    forall db: Db, rows: seq<Row>, row: Row :: holds(db, rows) ==>
      && InsertOne(cfg, db, meta, row).1 == (if CanBeIndexed(c, row) then None else Some(NotIndexable))
      && holds(InsertOne(cfg, db, meta, row).0, rows + [row])
  }

  lemma OneInserted(cfg: Config, db: Db, meta: TableMeta, c: Option<nat>, stored: seq<Row>, row: Row)
    requires TableIs(db, meta, c, stored)
    ensures InsertOne(cfg, db, meta, row).1 == if CanBeIndexed(c, row) then None else Some(NotIndexable)
    ensures TableIs(InsertOne(cfg, db, meta, row).0, meta, c, stored + [row])
  {
    InsertFailsOn(cfg, db, meta, row);
    InsertKeepsRowInv(cfg, db, meta, row);
    InsertIsLocal(cfg, db, meta, row);
    InsertAppends(db.rows, meta.id, row);
    IndexesAfterShape(db, meta, row);
  }

  ghost function RowsAre(meta: TableMeta, c: Option<nat>): (Db, seq<Row>) -> bool {
    (db: Db, rows: seq<Row>) => TableIs(db, meta, c, rows)
  }

  lemma TableGrows(cfg: Config, meta: TableMeta, c: Option<nat>)
    ensures Grows(cfg, meta, c, RowsAre(meta, c))
  {
    forall db: Db, rows: seq<Row>, row: Row | TableIs(db, meta, c, rows)
      ensures InsertOne(cfg, db, meta, row).1 == if CanBeIndexed(c, row) then None else Some(NotIndexable)
      ensures TableIs(InsertOne(cfg, db, meta, row).0, meta, c, rows + [row])
    {
      OneInserted(cfg, db, meta, c, rows, row);
    }
  }

  lemma RowsJoin(stored: seq<Row>, values: seq<Row>, k: nat)
    requires 1 <= k <= |values|
    ensures (stored + [values[0]]) + values[1..][..k - 1] == stored + values[..k]
  {
  }

  lemma StopsLater(c: Option<nat>, values: seq<Row>, k: nat)
    requires k > 0 && StopsAt(c, values, k)
    ensures CanBeIndexed(c, values[0]) && StopsAt(c, values[1..], k - 1)
  {
    assert values[..k][0] == values[0];
    assert values[..k][1..] == values[1..][..k - 1];
  }

  lemma {:induction false} InsertStops(cfg: Config, holds: (Db, seq<Row>) -> bool, db: Db, meta: TableMeta,
                                       c: Option<nat>, stored: seq<Row>, values: seq<Row>, count: nat, k: nat)
    requires Grows(cfg, meta, c, holds) && holds(db, stored) && StopsAt(c, values, k)
    ensures InsertFrom(cfg, db, meta, values, count).1 == Failure(NotIndexable)
    ensures holds(InsertFrom(cfg, db, meta, values, count).0, stored + values[..k + 1])
    decreases k
  {
    var (next, error) := InsertOne(cfg, db, meta, values[0]);
    assert holds(next, stored + [values[0]]);
    if k == 0 {
      assert values[..1] == [values[0]];
    } else {
      StopsLater(c, values, k);
      InsertStops(cfg, holds, next, meta, c, stored + [values[0]], values[1..], count + 1, k - 1);
      RowsJoin(stored, values, k + 1);
    }
  }

  lemma IndexableTail(c: Option<nat>, values: seq<Row>)
    requires values != [] && AllIndexable(c, values)
    ensures CanBeIndexed(c, values[0]) && AllIndexable(c, values[1..])
  {
  }

  lemma AllJoin(stored: seq<Row>, values: seq<Row>)
    ensures values == [] ==> stored + values == stored
    ensures values != [] ==> (stored + [values[0]]) + values[1..] == stored + values
  {
  }

  lemma RestFollows(cfg: Config, db: Db, meta: TableMeta, values: seq<Row>, count: nat)
    ensures values == [] ==> InsertFrom(cfg, db, meta, values, count) == (db, Success(RowsAffected(count)))
    ensures values != [] && InsertOne(cfg, db, meta, values[0]).1.None? ==>
      InsertFrom(cfg, db, meta, values, count)
        == InsertFrom(cfg, InsertOne(cfg, db, meta, values[0]).0, meta, values[1..], count + 1)
  {
  }

  lemma {:induction false} InsertAppendsAll(cfg: Config, holds: (Db, seq<Row>) -> bool, db: Db, meta: TableMeta,
                                            c: Option<nat>, stored: seq<Row>, values: seq<Row>, count: nat)
      returns (db': Db)
    requires Grows(cfg, meta, c, holds) && holds(db, stored) && AllIndexable(c, values)
    ensures db' == InsertFrom(cfg, db, meta, values, count).0 && holds(db', stored + values)
    decreases |values|
  {
    AllJoin(stored, values);
    RestFollows(cfg, db, meta, values, count);
    if values == [] {
      db' := db;
    } else {
      IndexableTail(c, values);
      var next := InsertOne(cfg, db, meta, values[0]).0;
      assert holds(next, stored + [values[0]]);
      db' := InsertAppendsAll(cfg, holds, next, meta, c, stored + [values[0]], values[1..], count + 1);
    }
  }

  lemma {:induction false} InsertReports(cfg: Config, holds: (Db, seq<Row>) -> bool, db: Db, meta: TableMeta,
                                         c: Option<nat>, stored: seq<Row>, values: seq<Row>, count: nat)
      returns (total: nat)
    requires Grows(cfg, meta, c, holds) && holds(db, stored) && AllIndexable(c, values)
    ensures InsertFrom(cfg, db, meta, values, count).1 == Success(RowsAffected(total)) && total == count + |values|
    decreases |values|
  {
    AllJoin(stored, values);
    RestFollows(cfg, db, meta, values, count);
    if values == [] {
      total := count;
    } else {
      IndexableTail(c, values);
      var next := InsertOne(cfg, db, meta, values[0]).0;
      assert holds(next, stored + [values[0]]);
      total := InsertReports(cfg, holds, next, meta, c, stored + [values[0]], values[1..], count + 1);
    }
  }

  lemma InsertIsInsertFrom(cfg: Config, db: Db, namespace: Option<string>, table: string, values: seq<Row>,
                           meta: TableMeta)
    requires FindTable(db, namespace, table) == Success(meta)
    ensures Exec(cfg, db, Insert(table, namespace, values)) == InsertFrom(cfg, db, meta, values, 0)
  {
  }

  lemma RowsAreNow(db: Db, meta: TableMeta)
    requires RowInv(db) && Known(db, meta)
    ensures RowsAre(meta, IndexedColumn(db, meta.id))(db, TableRows(db.rows, meta.id))
  {
  }

  lemma AllInserted(cfg: Config, db: Db, meta: TableMeta, c: Option<nat>, stored: seq<Row>, values: seq<Row>)
      returns (db': Db, total: nat)
    requires RowsAre(meta, c)(db, stored) && AllIndexable(c, values)
    ensures InsertFrom(cfg, db, meta, values, 0) == (db', Success(RowsAffected(total)))
    ensures RowsAre(meta, c)(db', stored + values) && total == |values|
  {
    TableGrows(cfg, meta, c);
    db' := InsertAppendsAll(cfg, RowsAre(meta, c), db, meta, c, stored, values, 0);
    total := InsertReports(cfg, RowsAre(meta, c), db, meta, c, stored, values, 0);
  }

  lemma InsertAllMeans(cfg: Config, db: Db, meta: TableMeta, values: seq<Row>)
    requires RowInv(db) && Known(db, meta) && AllIndexable(IndexedColumn(db, meta.id), values)
    ensures
      var (db', r) := InsertFrom(cfg, db, meta, values, 0);
      r == Success(RowsAffected(|values|)) && TableRows(db'.rows, meta.id) == TableRows(db.rows, meta.id) + values
  {
    RowsAreNow(db, meta);
    var db', total := AllInserted(cfg, db, meta, IndexedColumn(db, meta.id), TableRows(db.rows, meta.id), values);
  }

  lemma InsertStopMeans(cfg: Config, db: Db, meta: TableMeta, values: seq<Row>, k: nat)
    requires RowInv(db) && Known(db, meta) && StopsAt(IndexedColumn(db, meta.id), values, k)
    ensures
      var (db', r) := InsertFrom(cfg, db, meta, values, 0);
      && r == Failure(NotIndexable)
      && TableRows(db'.rows, meta.id) == TableRows(db.rows, meta.id) + values[..k + 1]
  {
    var c, stored := IndexedColumn(db, meta.id), TableRows(db.rows, meta.id);
    TableGrows(cfg, meta, c);
    RowsAreNow(db, meta);
    InsertStops(cfg, RowsAre(meta, c), db, meta, c, stored, values, 0, k);
  }

  /** Executing INSERT: if every row can be indexed all are appended, in order, and as many are reported; else
      it fails at the first that cannot, with the rows up to that one stored. */
  lemma InsertMeans(cfg: Config, db: Db, namespace: Option<string>, table: string, values: seq<Row>, meta: TableMeta)
    requires RowInv(db) && FindTable(db, namespace, table) == Success(meta)
    ensures
      var (db', r) := Exec(cfg, db, Insert(table, namespace, values));
      var stored, stored' := TableRows(db.rows, meta.id), TableRows(db'.rows, meta.id);
      && (AllIndexable(IndexedColumn(db, meta.id), values) ==>
            r == Success(RowsAffected(|values|)) && stored' == stored + values)
      && (forall k :: StopsAt(IndexedColumn(db, meta.id), values, k) ==>
            r == Failure(NotIndexable) && stored' == stored + values[..k + 1])
  {
    var c, stored := IndexedColumn(db, meta.id), TableRows(db.rows, meta.id);
    FoundIsKnown(db, namespace, table);
    InsertIsInsertFrom(cfg, db, namespace, table, values, meta);
    if AllIndexable(c, values) {
      InsertAllMeans(cfg, db, meta, values);
    }
    forall k | StopsAt(c, values, k)
      ensures
        var (db', r) := InsertFrom(cfg, db, meta, values, 0);
        r == Failure(NotIndexable) && TableRows(db'.rows, meta.id) == stored + values[..k + 1]
    {
      InsertStopMeans(cfg, db, meta, values, k);
    }
  }

  // ----- statements below queries

  predicate ChangesTables(plan: PlanNode) {
    plan.Insert? || plan.CreateTable? || plan.DropTable?
  }

  lemma ChangesYieldNoRows(cfg: Config, db: Db, plan: PlanNode)
    requires ChangesTables(plan)
    ensures Exec(cfg, db, plan).1.Success? ==> Exec(cfg, db, plan).1.value.RowsAffected?
  {
    if Exec(cfg, db, plan).1.Success? && Exec(cfg, db, plan).1.value.Rows? {
      RowsComeFromQueries(cfg, db, plan);
    }
  }

  /** Below a filter or an aggregate, a statement that changes tables is refused before it is carried out; below
      the other operators it is carried out, and then the query fails: with its error, or for want of rows. */
  lemma StatementsBelowQueries(cfg: Config, db: Db, input: PlanNode, pred: FilterExpr, aggs: seq<AggExpr>,
                               limit: nat, offset: nat, names: seq<string>, order: seq<(string, bool)>)
    requires ChangesTables(input)
    ensures Exec(cfg, db, Filter(input, pred)) == (db, Failure(ExpectedScan))
    ensures Exec(cfg, db, Aggregate(input, aggs)) == (db, Failure(ExpectedScan))
    ensures
      var (db', r) := Exec(cfg, db, input);
      var failure := Failure(if r.Success? then ExpectedRows else r.error);
      && Exec(cfg, db, Limit(input, limit, offset)) == (db', failure)
      && Exec(cfg, db, Project(input, names)) == (db', failure)
      && Exec(cfg, db, OrderBy(input, order)) == (db', failure)
      && Exec(cfg, db, GroupBy(input, names, aggs)) == (db', failure)
  {
    ChangesYieldNoRows(cfg, db, input);
  }
}
