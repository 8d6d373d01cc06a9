/** Deleting documents from a session's row store, as the session's indexes see it. */
module DocumentRuns {
  import opened Documents
  import opened Engine
  import opened Invariants
  import opened Seqs
  import opened Schemas
  import opened TableStores
  import opened Values

  lemma {:induction false} RunEventsThen(cfg: Config, db: Db, a: seq<Event>, b: seq<Event>)
    ensures RunEvents(cfg, db, a + b) == RunEvents(cfg, RunEvents(cfg, db, a), b)
    decreases |a|
  {
    if a == [] {
      assert a + b == b;
    } else {
      assert (a + b)[0] == a[0] && (a + b)[1..] == a[1..] + b;
      RunEventsThen(cfg, AfterEvent(cfg, db, a[0]), a[1..], b);
    }
  }

  /** One delete for each listed row. */
  function Deletes(t: TableId, pairs: seq<(RowId, Row)>): seq<Event> {
    if pairs == [] then [] else Deletes(t, pairs[..|pairs| - 1]) + [DocumentDelete(t, pairs[|pairs| - 1].0)]
  }

  lemma {:induction false} DeletesLeave(cfg: Config, db: Db, t: TableId, pairs: seq<(RowId, Row)>)
    ensures RunEvents(cfg, db, Deletes(t, pairs)) == db.(rows := db.rows.(data := Remaining(db.rows.data, t, pairs)))
  {
    if pairs != [] {
      var front, last := pairs[..|pairs| - 1], pairs[|pairs| - 1];
      DeletesLeave(cfg, db, t, front);
      RunEventsThen(cfg, db, Deletes(t, front), [DocumentDelete(t, last.0)]);
      assert [DocumentDelete(t, last.0)][1..] == [];
    }
  }

  /** `delete_many` over a session's rows is a run of document deletes: its indexes go on agreeing with the
      rows, and lookups with scans. */
  lemma DeleteManyIsDeletes(cfg: Config, db: Db, t: TableId, filter: Option<DocFilter>, schema: Schema)
    requires RowInv(db)
    ensures
      var db' := db.(rows := WithoutMatching(db.rows, t, filter, schema));
      db' == RunEvents(cfg, db, Deletes(t, MatchingPairs(filter, schema, ScanPairs(db.rows, t)))) && RowInv(db')
  {
    var found := MatchingPairs(filter, schema, ScanPairs(db.rows, t));
    RemainingIsWithoutMatching(db.rows, t, filter, schema);
    DeletesLeave(cfg, db, t, found);
    RunEventsKeepsRowInv(cfg, db, Deletes(t, found));
  }
}
