/** Indexes while threads insert: what a lookup can see of rows that are still on their way. */
module ConcurrentIndexes {
  import opened BTreeIndexes
  import opened Catalogs
  import opened Concurrency
  import opened Engine
  import opened IndexedLookups
  import opened IndexKeys
  import opened Invariants
  import opened Seqs
  import opened TableStores
  import opened Values
  import Lex

  // ----- row ids in the hands of threads

  /** The row id a thread has taken and not yet posted. */
  function Hand(th: Thread): set<RowId> {
    if th.Numbered? || th.Stored? then {th.rid} else {}
  }

  /** The row id for which no row is stored yet. */
  function ReservedBy(): Thread -> set<RowId> {
    (th: Thread) => if th.Numbered? then {th.rid} else {}
  }

  /** The row id of table `t` whose row is stored and not yet posted. */
  function AwaitedBy(t: TableId): Thread -> set<RowId> {
    (th: Thread) => if th.Stored? && th.meta.id == t then {th.rid} else {}
  }

  function Gather(own: Thread -> set<RowId>, threads: seq<Thread>): set<RowId> {
    set i, r | 0 <= i < |threads| && r in own(threads[i]) :: r
  }

  function GatherExcept(own: Thread -> set<RowId>, threads: seq<Thread>, i: nat): set<RowId> {
    set j, r | 0 <= j < |threads| && j != i && r in own(threads[j]) :: r
  }

  lemma GatherSplit(own: Thread -> set<RowId>, threads: seq<Thread>, i: nat)
    requires i < |threads|
    ensures Gather(own, threads) == GatherExcept(own, threads, i) + own(threads[i])
  {
    forall r ensures r in Gather(own, threads) <==> r in GatherExcept(own, threads, i) + own(threads[i]) {
    }
  }

  lemma GatherUpdate(own: Thread -> set<RowId>, threads: seq<Thread>, i: nat, th: Thread)
    requires i < |threads|
    ensures Gather(own, threads[i := th]) == GatherExcept(own, threads, i) + own(th)
  {
    GatherSplit(own, threads[i := th], i);
    forall r ensures r in GatherExcept(own, threads[i := th], i) <==> r in GatherExcept(own, threads, i) {
      if r in GatherExcept(own, threads, i) {
        var j :| 0 <= j < |threads| && j != i && r in own(threads[j]);
        assert r in own(threads[i := th][j]);
      }
    }
    assert GatherExcept(own, threads[i := th], i) == GatherExcept(own, threads, i);
  }

  ghost predicate HandsApart(a: Thread, b: Thread) {
    Hand(a) !! Hand(b)
  }

  /** A row that waits for its posting is in the store. */
  ghost predicate IsInStore(db: Db, th: Thread) {
    th.Stored? ==>
      && th.rows != [] && (th.meta.id, th.rid) in db.rows.data
      && db.rows.data[(th.meta.id, th.rid)] == th.rows[0]
  }

  ghost predicate HandsOk(db: Db, threads: seq<Thread>) {
    && (forall i :: 0 <= i < |threads| ==> IsInStore(db, threads[i]))
    && (forall i, j :: 0 <= i < j < |threads| ==> HandsApart(threads[i], threads[j]))
  }

  lemma HandsAreGivenOut(cfg: Config, db: Db, th: Thread)
    requires IdsGivenOut(db.rows) && ThreadOk(cfg, db, th) && IsInStore(db, th)
    ensures forall r :: r in Hand(th) ==> r < db.rows.next
  {
  }

  lemma StepKeepsHand(cfg: Config, db: Db, th: Thread, other: Thread)
    requires IdsGivenOut(db.rows) && ThreadOk(cfg, db, th) && ThreadOk(cfg, db, other)
    requires IsInStore(db, th) && IsInStore(db, other) && HandsApart(th, other)
    ensures var (db', th') := StepThread(cfg, db, th);
      IsInStore(db', th') && IsInStore(db', other) && HandsApart(th', other)
  {
    HandsAreGivenOut(cfg, db, other);
  }

  lemma StepKeepsOwnHand(cfg: Config, db: Db, th: Thread)
    requires ThreadOk(cfg, db, th) && IsInStore(db, th)
    ensures var (db', th') := StepThread(cfg, db, th); IsInStore(db', th')
  {
  }

  lemma StepKeepsHands(cfg: Config, s: System, i: nat)
    requires SystemOk(cfg, s) && HandsOk(s.db, s.threads) && i < |s.threads|
    ensures HandsOk(Step(cfg, s, i).db, Step(cfg, s, i).threads)
  {
    var s', th := Step(cfg, s, i), s.threads[i];
    StepKeepsOwnHand(cfg, s.db, th);
    forall j | 0 <= j < |s.threads| && j != i
      ensures IsInStore(s'.db, s.threads[j]) && HandsApart(s'.threads[i], s.threads[j])
    {
      assert HandsApart(s.threads[if i < j then i else j], s.threads[if i < j then j else i]);
      StepKeepsHand(cfg, s.db, th, s.threads[j]);
    }
  }

  // ----- postings

  function Count(index: IndexMap, key: Lex.Key, rid: RowId): nat {
    multiset(Postings(index, key))[rid]
  }

  /** A stored row is posted once, under its own key and no other, unless its posting is still awaited;
      an id with no row yet is not posted at all. */
  ghost predicate CountRight(index: IndexMap, rows: RowState, t: TableId, c: nat, awaited: set<RowId>,
                             reserved: set<RowId>, key: Lex.Key, rid: RowId) {
    && ((t, rid) in rows.data ==>
          Count(index, key, rid) == if IdKey(rows.data[(t, rid)], c) == Some(key) && rid !in awaited then 1 else 0)
    && (rid >= rows.next || rid in reserved ==> Count(index, key, rid) == 0)
  }

  ghost predicate CountsRight(index: IndexMap, rows: RowState, t: TableId, c: nat, awaited: set<RowId>,
                              reserved: set<RowId>) {
    forall key, rid :: CountRight(index, rows, t, c, awaited, reserved, key, rid)
  }

  lemma NumberTaken(index: IndexMap, rows: RowState, t: TableId, c: nat, awaited: set<RowId>, reserved: set<RowId>)
    requires CountsRight(index, rows, t, c, awaited, reserved)
    ensures CountsRight(index, rows.(next := rows.next + 1), t, c, awaited, reserved + {rows.next})
  {
    var rows', reserved' := rows.(next := rows.next + 1), reserved + {rows.next};
    forall key, rid ensures CountRight(index, rows', t, c, awaited, reserved', key, rid) {
      assert CountRight(index, rows, t, c, awaited, reserved, key, rid);
    }
  }

  lemma RowStored(index: IndexMap, rows: RowState, t: TableId, c: nat, awaited: set<RowId>, reserved: set<RowId>,
                  u: TableId, rid: RowId, row: Row)
    requires CountsRight(index, rows, t, c, awaited, reserved) && rid in reserved
    ensures CountsRight(index, rows.(data := rows.data[(u, rid) := row]), t, c,
                        if u == t then awaited + {rid} else awaited, reserved - {rid})
  {
    var rows', awaited' := rows.(data := rows.data[(u, rid) := row]), if u == t then awaited + {rid} else awaited;
    var reserved' := reserved - {rid};
    forall key, r ensures CountRight(index, rows', t, c, awaited', reserved', key, r) {
      assert CountRight(index, rows, t, c, awaited, reserved, key, r);
    }
  }

  lemma CountOfAdded(index: IndexMap, key: Lex.Key, rid: RowId, k: Lex.Key, r: RowId)
    ensures Count(AddPosting(index, key, rid), k, r) == Count(index, k, r) + if k == key && r == rid then 1 else 0
  {
    if k == key {
      assert Postings(AddPosting(index, key, rid), k) == Postings(index, k) + [rid];
    } else {
      assert Postings(AddPosting(index, key, rid), k) == Postings(index, k);
    }
  }

  lemma RowPosted(index: IndexMap, rows: RowState, t: TableId, c: nat, awaited: set<RowId>, reserved: set<RowId>,
                  rid: RowId)
    requires CountsRight(index, rows, t, c, awaited, reserved)
    requires (t, rid) in rows.data && rid in awaited && rid < rows.next && rid !in reserved
    ensures
      var key := IdKey(rows.data[(t, rid)], c);
      CountsRight(if key.Some? then AddPosting(index, key.value, rid) else index, rows, t, c, awaited - {rid}, reserved)
  {
    var key := IdKey(rows.data[(t, rid)], c);
    var index' := if key.Some? then AddPosting(index, key.value, rid) else index;
    var awaited' := awaited - {rid};
    forall k, r ensures CountRight(index', rows, t, c, awaited', reserved, k, r) {
      assert CountRight(index, rows, t, c, awaited, reserved, k, r);
      if key.Some? {
        CountOfAdded(index, key.value, rid, k, r);
      }
    }
  }

  /** The index of table `t` is right about every row id. */
  ghost predicate IndexRight(db: Db, threads: seq<Thread>, t: TableId) {
    (t, ID) in db.indexes && IndexedColumn(db, t).Some? &&
    CountsRight(db.indexes[(t, ID)], db.rows, t, IndexedColumn(db, t).value, Gather(AwaitedBy(t), threads),
                Gather(ReservedBy(), threads))
  }

  // ----- step by step

  /** What a step of a thread does to the rows and to the index of table `t`. */
  lemma StepOfNumber(cfg: Config, db: Db, threads: seq<Thread>, i: nat, t: TableId)
    requires i < |threads| && ThreadOk(cfg, db, threads[i]) && threads[i].Inserting? && threads[i].rows != []
    requires IndexRight(db, threads, t)
    ensures var (db', th') := StepThread(cfg, db, threads[i]); IndexRight(db', threads[i := th'], t)
  {
    var th := threads[i];
    var (db', th') := StepThread(cfg, db, th);
    StepIsLocal(cfg, db, th);
    NumberTaken(db.indexes[(t, ID)], db.rows, t, IndexedColumn(db, t).value, Gather(AwaitedBy(t), threads),
                Gather(ReservedBy(), threads));
    GatherSplit(AwaitedBy(t), threads, i);
    GatherUpdate(AwaitedBy(t), threads, i, th');
    GatherSplit(ReservedBy(), threads, i);
    GatherUpdate(ReservedBy(), threads, i, th');
    assert Gather(AwaitedBy(t), threads[i := th']) == Gather(AwaitedBy(t), threads);
    assert Gather(ReservedBy(), threads[i := th']) == Gather(ReservedBy(), threads) + {db.rows.next};
  }

  /** The id in a thread's hand is in no other's. */
  lemma HandIsOwn(db: Db, threads: seq<Thread>, i: nat, t: TableId)
    requires HandsOk(db, threads) && i < |threads|
    ensures GatherExcept(ReservedBy(), threads, i) !! Hand(threads[i])
    ensures GatherExcept(AwaitedBy(t), threads, i) !! Hand(threads[i])
  {
    forall r | r in Hand(threads[i])
      ensures r !in GatherExcept(ReservedBy(), threads, i) && r !in GatherExcept(AwaitedBy(t), threads, i)
    {
      forall j | 0 <= j < |threads| && j != i ensures r !in Hand(threads[j]) {
        assert HandsApart(threads[if i < j then i else j], threads[if i < j then j else i]);
      }
    }
  }

  lemma StepOfStore(cfg: Config, db: Db, threads: seq<Thread>, i: nat, t: TableId)
    requires i < |threads| && ThreadOk(cfg, db, threads[i]) && threads[i].Numbered?
    requires HandsOk(db, threads) && IndexRight(db, threads, t)
    ensures var (db', th') := StepThread(cfg, db, threads[i]); IndexRight(db', threads[i := th'], t)
  {
    var th := threads[i];
    var (db', th') := StepThread(cfg, db, th);
    StepIsLocal(cfg, db, th);
    HandIsOwn(db, threads, i, t);
    GatherSplit(AwaitedBy(t), threads, i);
    GatherUpdate(AwaitedBy(t), threads, i, th');
    GatherSplit(ReservedBy(), threads, i);
    GatherUpdate(ReservedBy(), threads, i, th');
    var awaited, reserved := Gather(AwaitedBy(t), threads), Gather(ReservedBy(), threads);
    RowStored(db.indexes[(t, ID)], db.rows, t, IndexedColumn(db, t).value, awaited, reserved, th.meta.id, th.rid,
              th.rows[0]);
    assert Gather(AwaitedBy(t), threads[i := th']) == if th.meta.id == t then awaited + {th.rid} else awaited;
    assert Gather(ReservedBy(), threads[i := th']) == reserved - {th.rid};
  }

  /** Posting puts the id under the key of its row, if it has one. */
  lemma PostedIndex(cfg: Config, db: Db, th: Thread, t: TableId)
    requires ThreadOk(cfg, db, th) && th.Stored? && IsInStore(db, th)
    requires (t, ID) in db.indexes && IndexedColumn(db, t).Some?
    ensures
      var db' := StepThread(cfg, db, th).0;
      var key := IdKey(th.rows[0], IndexedColumn(db, t).value);
      && db'.rows == db.rows && (t, ID) in db'.indexes
      && db'.indexes[(t, ID)] ==
           if th.meta.id == t && key.Some? then AddPosting(db.indexes[(t, ID)], key.value, th.rid)
           else db.indexes[(t, ID)]
  {
    IdCellIsIndexed(db, th.meta, th.rows[0]);
  }

  lemma StepOfPost(cfg: Config, db: Db, threads: seq<Thread>, i: nat, t: TableId)
    requires IdsGivenOut(db.rows) && i < |threads| && ThreadOk(cfg, db, threads[i]) && threads[i].Stored?
    requires HandsOk(db, threads) && IndexRight(db, threads, t)
    ensures var (db', th') := StepThread(cfg, db, threads[i]); IndexRight(db', threads[i := th'], t)
  {
    var th := threads[i];
    var (db', th') := StepThread(cfg, db, th);
    StepIsLocal(cfg, db, th);
    HandIsOwn(db, threads, i, t);
    PostedIndex(cfg, db, th, t);
    GatherSplit(AwaitedBy(t), threads, i);
    GatherUpdate(AwaitedBy(t), threads, i, th');
    GatherSplit(ReservedBy(), threads, i);
    GatherUpdate(ReservedBy(), threads, i, th');
    var awaited, reserved := Gather(AwaitedBy(t), threads), Gather(ReservedBy(), threads);
    assert Gather(ReservedBy(), threads[i := th']) == reserved;
    if th.meta.id == t {
      RowPosted(db.indexes[(t, ID)], db.rows, t, IndexedColumn(db, t).value, awaited, reserved, th.rid);
      assert Gather(AwaitedBy(t), threads[i := th']) == awaited - {th.rid};
    } else {
      assert Gather(AwaitedBy(t), threads[i := th']) == awaited;
    }
  }

  lemma StepOfOther(cfg: Config, db: Db, threads: seq<Thread>, i: nat, t: TableId)
    requires i < |threads| && ThreadOk(cfg, db, threads[i]) && IndexRight(db, threads, t)
    requires !threads[i].Numbered? && !threads[i].Stored? && (threads[i].Inserting? ==> threads[i].rows == [])
    ensures var (db', th') := StepThread(cfg, db, threads[i]); IndexRight(db', threads[i := th'], t)
  {
    var (db', th') := StepThread(cfg, db, threads[i]);
    StepIsLocal(cfg, db, threads[i]);
    GatherSplit(AwaitedBy(t), threads, i);
    GatherUpdate(AwaitedBy(t), threads, i, th');
    GatherSplit(ReservedBy(), threads, i);
    GatherUpdate(ReservedBy(), threads, i, th');
  }

  lemma StepKeepsIndexRight(cfg: Config, s: System, i: nat, t: TableId)
    requires SystemOk(cfg, s) && HandsOk(s.db, s.threads) && IndexRight(s.db, s.threads, t) && i < |s.threads|
    ensures IndexRight(Step(cfg, s, i).db, Step(cfg, s, i).threads, t)
  {
    var th := s.threads[i];
    if th.Numbered? {
      StepOfStore(cfg, s.db, s.threads, i, t);
    } else if th.Stored? {
      StepOfPost(cfg, s.db, s.threads, i, t);
    } else if th.Inserting? && th.rows != [] {
      StepOfNumber(cfg, s.db, s.threads, i, t);
    } else {
      StepOfOther(cfg, s.db, s.threads, i, t);
    }
  }

  lemma {:induction false} ScheduleKeepsIndexRight(cfg: Config, s: System, schedule: seq<nat>, t: TableId)
    requires cfg.chunkSize > 0 && SystemOk(cfg, s) && HandsOk(s.db, s.threads) && IndexRight(s.db, s.threads, t)
    ensures var s' := RunSchedule(cfg, s, schedule); IndexRight(s'.db, s'.threads, t) && IdsGivenOut(s'.db.rows)
    decreases |schedule|
  {
    if schedule != [] {
      StepKeepsOk(cfg, s, schedule[0]);
      if schedule[0] < |s.threads| {
        StepKeepsHands(cfg, s, schedule[0]);
        StepKeepsIndexRight(cfg, s, schedule[0], t);
      }
      ScheduleKeepsIndexRight(cfg, Step(cfg, s, schedule[0]), schedule[1..], t);
    }
  }

  // ----- what lookups see

  /** A row id whose row has the key and whose posting is in place. */
  function Visible(data: RowMap, t: TableId, c: nat, key: Lex.Key, awaited: set<RowId>): RowId -> bool {
    (rid: RowId) => (t, rid) in data && IdKey(data[(t, rid)], c) == Some(key) && rid !in awaited
  }

  /** A lookup returns the rows with the key whose postings are in place, each once. */
  lemma LookupSeesVisible(index: IndexMap, rows: RowState, t: TableId, c: nat, awaited: set<RowId>,
                          reserved: set<RowId>, key: Lex.Key)
    requires CountsRight(index, rows, t, c, awaited, reserved) && IdsGivenOut(rows)
    ensures multiset(Fetch(rows.data, t, Postings(index, key)))
         == multiset(Fetch(rows.data, t, Select(Visible(rows.data, t, c, key, awaited), TableRids(rows, t))))
  {
    var ids, visible := Postings(index, key), Visible(rows.data, t, c, key, awaited);
    var stored, found := Select(IsStored(rows.data, t), ids), Select(visible, TableRids(rows, t));
    RidsMembers(rows.data, t, rows.next);
    AscendingIsDistinct(TableRids(rows, t));
    SelectDistinct(visible, TableRids(rows, t));
    BagSelect(IsStored(rows.data, t), ids);
    forall rid ensures multiset(stored)[rid] == multiset(found)[rid] {
      assert CountRight(index, rows, t, c, awaited, reserved, key, rid);
      DistinctCount(found, rid);
    }
    FetchBag(rows.data, t, stored, found);
    FetchPresent(rows.data, t, ids);
  }

  lemma NothingAwaited(index: IndexMap, rows: RowState, t: TableId, c: nat, reserved: set<RowId>, key: Lex.Key)
    requires CountsRight(index, rows, t, c, {}, reserved) && IdsGivenOut(rows)
    ensures multiset(Fetch(rows.data, t, Postings(index, key))) == multiset(RowsWithKey(TableRows(rows, t), c, key))
  {
    LookupSeesVisible(index, rows, t, c, {}, reserved, key);
    RidsMembers(rows.data, t, rows.next);
    var p := (row: Row) => IdKey(row, c) == Some(key);
    FetchSelect(rows.data, t, TableRids(rows, t), p);
    SelectAgrees(Visible(rows.data, t, c, key, {}), StoredWhere(rows.data, t, p), TableRids(rows, t));
  }

  lemma AscendingCount(ids: seq<RowId>, rid: RowId)
    requires Ascending(ids)
    ensures multiset(ids)[rid] == if rid in ids then 1 else 0
  {
    AscendingIsDistinct(ids);
    DistinctCount(ids, rid);
  }

  lemma AgreedIndexIsRight(index: IndexMap, rows: RowState, t: TableId, c: nat)
    requires IndexAgrees(index, rows, t, c)
    ensures CountsRight(index, rows, t, c, {}, {})
  {
    forall key, rid ensures CountRight(index, rows, t, c, {}, {}, key, rid) {
      assert PostingsAgree(Postings(index, key), rows, t, c, key);
      AscendingCount(Postings(index, key), rid);
    }
  }

  lemma NoHands(db: Db, threads: seq<Thread>, t: TableId)
    requires forall i :: 0 <= i < |threads| ==> AboutToStart(threads[i])
    ensures HandsOk(db, threads) && Gather(AwaitedBy(t), threads) == {} && Gather(ReservedBy(), threads) == {}
  {
  }

  lemma AgreedIsRight(db: Db, t: TableId)
    requires RowInv(db) && (t, ID) in db.indexes
    ensures IndexedColumn(db, t).Some?
    ensures CountsRight(db.indexes[(t, ID)], db.rows, t, IndexedColumn(db, t).value, {}, {})
  {
    assert TableIndexAgrees(db, t);
    AgreedIndexIsRight(db.indexes[(t, ID)], db.rows, t, IndexedColumn(db, t).value);
  }

  lemma StartIsRight(cfg: Config, s: System, t: TableId)
    requires Starts(cfg, s) && (t, ID) in s.db.indexes
    ensures HandsOk(s.db, s.threads) && IndexRight(s.db, s.threads, t)
  {
    NoHands(s.db, s.threads, t);
    AgreedIsRight(s.db, t);
  }

  /** What a lookup of one key in the index of table `t` finds. */
  function Found(db: Db, t: TableId, key: Lex.Key): seq<Row>
    requires (t, ID) in db.indexes
  {
    Fetch(db.rows.data, t, Postings(db.indexes[(t, ID)], key))
  }

  /** The rows of table `t` that have the key and do not wait for their posting. */
  function PostedRows(db: Db, threads: seq<Thread>, t: TableId, key: Lex.Key): seq<Row>
    requires IndexedColumn(db, t).Some?
  {
    var visible := Visible(db.rows.data, t, IndexedColumn(db, t).value, key, Gather(AwaitedBy(t), threads));
    Fetch(db.rows.data, t, Select(visible, TableRids(db.rows, t)))
  }

  lemma RightIndexFinds(db: Db, threads: seq<Thread>, t: TableId, key: Lex.Key)
    requires IndexRight(db, threads, t) && IdsGivenOut(db.rows)
    ensures multiset(Found(db, t, key)) == multiset(PostedRows(db, threads, t, key))
  {
    LookupSeesVisible(db.indexes[(t, ID)], db.rows, t, IndexedColumn(db, t).value,
                      Gather(AwaitedBy(t), threads), Gather(ReservedBy(), threads), key);
  }

  lemma RightIndexAtRest(db: Db, threads: seq<Thread>, t: TableId, key: Lex.Key)
    requires IndexRight(db, threads, t) && IdsGivenOut(db.rows)
    requires forall i :: 0 <= i < |threads| ==> threads[i].Idle?
    ensures multiset(Found(db, t, key)) == multiset(RowsWithKey(TableRows(db.rows, t), IndexedColumn(db, t).value, key))
  {
    NoHands(db, threads, t);
    NothingAwaited(db.indexes[(t, ID)], db.rows, t, IndexedColumn(db, t).value, Gather(ReservedBy(), threads), key);
  }

  /** In every interleaving and at every moment, a lookup by key returns rows with that key only, none of
      them twice, and misses only those that wait for their posting; when all threads are done it
      returns, as a bag, what filtering the scan returns. */
  lemma EveryInterleavingIndexes(cfg: Config, s: System, schedule: seq<nat>, t: TableId, key: Lex.Key)
    requires cfg.chunkSize > 0 && Starts(cfg, s) && (t, ID) in s.db.indexes
    ensures
      SystemOk(cfg, s) &&
      var s' := RunSchedule(cfg, s, schedule);
      && IndexRight(s'.db, s'.threads, t)
      && multiset(Found(s'.db, t, key)) == multiset(PostedRows(s'.db, s'.threads, t, key))
      && ((forall i :: 0 <= i < |s'.threads| ==> s'.threads[i].Idle?) ==>
            multiset(Found(s'.db, t, key))
              == multiset(RowsWithKey(TableRows(s'.db.rows, t), IndexedColumn(s'.db, t).value, key)))
  {
    StartIsOk(cfg, s, t);
    StartIsRight(cfg, s, t);
    ScheduleKeepsIndexRight(cfg, s, schedule, t);
    var s' := RunSchedule(cfg, s, schedule);
    RightIndexFinds(s'.db, s'.threads, t, key);
    if forall i :: 0 <= i < |s'.threads| ==> s'.threads[i].Idle? {
      RightIndexAtRest(s'.db, s'.threads, t, key);
    }
  }
}
