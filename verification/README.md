# RustafariDB: a verified model of the session engine

RustafariDB keeps every inserted row three times: in the row store, in a byte-keyed index on the column
named `id`, and in a columnar buffer that is transposed into chunks. A query is answered from whichever
copy is fastest. This project models that engine and proves that the fast answers are the plain ones, and
exactly when they are not.

The modules follow the program:

| module | models |
|---|---|
| `Values`, `Schemas`, `Lex`, `Seqs` | cell values, rows, errors, schemas with their name lookup; byte order; lists |
| `IndexKeys`, `BTreeIndexes` | `IndexKey` bytes and the index class |
| `TableStores`, `Columnar`, `Catalogs` | the row store, the column store and the catalog, each as a class over a value |
| `Plans`, `Where`, `Planner`, `PlannerMeaning`, `ProjectedOrder` | plans and row predicates; WHERE and SELECT, from syntax tree to plan |
| `Saturation`, `ColumnSums`, `Means`, `Aggregates`, `AllChunkings` | sums that saturate, exact means, aggregates over rows and over chunks |
| `Sorting`, `RowOrder`, `Grouping`, `BagAggregates`, `GroupTotals` | ORDER BY and GROUP BY |
| `OperatorMeaning`, `OrderMeaning`, `GroupMeaning`, `StatementMeaning`, `SelectMeaning` | what each operator, each statement and a whole SELECT returns or leaves, said of cells and rows only |
| `Engine`, `Sessions` | the session as a value, `Exec` over it, and the session class with one method per operation |
| `Invariants`, `IndexedLookups`, `IndexRuns`, `RowColumns`, `EventColumns`, `TableIdentity` | what every statement keeps, over whole runs |
| `Refinement`, `RangeRefinement` | fast paths against a reference evaluator that reads rows only |
| `CutRuns`, `Witnesses` | runs that cut a table into chunks at will, and short runs that reach the states in which the two differ |
| `Concurrency`, `ConcurrentIndexes` | inserting and flushing threads, one lock or atomic operation a step |
| `Documents`, `DocumentRuns` | document filters, `find`, `delete_many` |
| `InvertedIndexes` | the text index and its ranked search |

`Engine.Exec` is a function from a session value and a plan to the next value and the result; the class
`Sessions.SessionState` carries out the same plan step by step on mutable stores and is proved equal to it.
Everything about whole runs is then proved of `Exec`. The chunk size is any positive number and the debug
rendering used for GROUP BY keys is any rendering that tells values apart and has no NUL byte.

## Main results

* `Refinement.CleanRunsRefineReference`: after any run of statements that all succeed, a query returns, row
  for row, what a reference evaluator over scanned rows returns. Index ranges, whose rows come in key order,
  agree as bags, up to ties under ORDER BY and LIMIT, and row for row from a grouping, or an ordering that only
  equal rows tie in, upwards (`RangeRefinement.RunsRefineReferenceInRanges`). `Planner.SelectAnswersQuery` and
  `Planner.SelectAnswersRange` carry both up to SELECT statements.
* What the reference itself returns is said of cells and rows alone: `OrderMeaning.OrderByMeans`,
  `GroupMeaning.GroupByMeans`, `OperatorMeaning.LimitMeans` and its neighbours for what `Exec` makes of its
  input's rows, `StatementMeaning.InsertMeans` and `CreateMeans` for statements, `Where.ComparisonMeans` and
  `Documents.OneConditionMeans` for comparisons, and `PlannerMeaning` for names, calls, directions and windows. `SelectMeaning.StarAnswers` puts them together from statement to
  answer.
* `Invariants.RunKeepsInv`, `Invariants.RunEventsKeepsRowInv`: the invariant behind it holds after every run
  whatever, with failing INSERTs and document deletes included.
* `Concurrency.EveryInterleavingConserves`: in every interleaving of inserting and flushing threads no row is
  lost or counted twice, and `ConcurrentIndexes.EveryInterleavingIndexes` says what lookups see meanwhile;
  `Concurrency.InsertAlone` ties the threads to the sequential session.
* `ColumnSums.AnyChunkingSumsIff`: the saturating SUM of a column is the same for every way to cut the
  column into chunks exactly when a sum that ends at a bound was never on the other side of zero, or a sum
  that ends elsewhere comes from runs none of which overflows. `AllChunkings.EveryChunkingAgreesIffSafe`
  carries this to all aggregates: a stated condition on a table's rows suffices for the chunk path to give
  the row path's answer however the rows are cut into chunks, and for rows that fit one chunk it is exact.
  `CutRuns.EveryRunAnswersIff` says the same of what sessions answer, every such cut being made by some run.
  `Saturation.ChunksNeverMatterIffSteady` is the condition for a column at every moment of its growth.
* `EventColumns.ColumnsHoldHistory`: after any run in which documents are deleted behind the session's back,
  the columns of a table hold, in order, exactly the rows that were ever stored in it and could be indexed (all
  of them where there is no index); from that follow what its aggregates answer and when COUNT(*) is still right.

## Where the code differs from what it seems to promise

Each of these is proved, with the exact condition where one can be given.

* SUM over chunks can differ from SUM over rows: `[i64::MAX]` and `[1, -1]` give MAX, the rows MAX - 1
  (`Saturation.ChunksCanMatter`, `ColumnSums.AnyChunkingSumsIff`); CREATE, two INSERTs and a query between
  them reach it (`Witnesses.SumDependsOnFlush`).
* MIN of a column of `i64::MAX` only, or MAX of `i64::MIN` only, reads Null from chunks
  (`Aggregates.ChunksAgreeIffSafe`, `Witnesses.MinOfMaxIsNull`). A column that does not exist is an error on
  rows, and 0 or Null on chunks (`Aggregates.UnknownColumn`).
* An INSERT whose `id` cannot be indexed fails after the row is stored, so COUNT(*) and a scan disagree
  (`Refinement.CountStarIff`, `Witnesses.CountMissesRow`).
* Deleting documents leaves the columns as they are, so aggregates go on counting the deleted rows
  (`EventColumns.AggregateOfHistory`, `EventColumns.CountAfterDeletesIff`, `Witnesses.CountKeepsDeleted`).
* An aggregate over a filter ignores the filter once the table has chunks (`Refinement.FilteredCountIff`,
  `Witnesses.CountIgnoresFilter`).
* A range on `id` whose bounds differ in sign aborts or returns the wrong rows
  (`IndexKeys.RangeIsNumericIff` for keys, `IndexedLookups.RangeIsFilter` and `IndexedLookups.OneTypeRangeIff`
  for rows, booleans included), and `id = NULL` is an error on an indexed table
  (`IndexedLookups.PointIsFilter`). The comment at crates/rustafari-index/src/btree.rs:78 calls the end
  exclusive, the code includes it, and the model follows the code.
* A comparison with its literal on the left keeps its operator (`Where.LiteralOnLeftIff`).
* ORDER BY over a projection reads the table's column positions in the projected rows
  (`ProjectedOrder.OrderAfterProjectIff`). A column that tells two rows apart and has a cell of another kind,
  such as a Null among integers, leaves nothing to order by (`RowOrder.ColumnOrdersIff`,
  `RowOrder.NullsBreakTheOrder`).
* A table hidden by a later one of the same name can take the name back when the catalog is reloaded
  (`Catalogs.LookupsSurviveIffUnshadowed`, `Catalogs.ShadowedReturns`), and two CREATEs of one name are enough
  (`Witnesses.FirstComesBack`).
* Indexing text again for a row already indexed leaves its old postings behind
  (`InvertedIndexes.InsertKeepsSoundIff`), and search then ranks by all postings it meets. The documentation
  speaks of AND and phrase search; the code returns documents with any of the terms, ranked by occurrences.

## Model

| member | source | states |
|---|---|---|
| `Refinement.CleanRunsRefineReference` | crates/rustafari-executor/src/lib.rs:144-349 | After any run of succeeding CREATE, INSERT, DROP and SELECT from a fresh or just loaded session, a query with safe fast paths returns exactly the rows of a reference evaluator that never reads an index or a chunk. |
| `Refinement.ExecRefinesReference` | crates/rustafari-executor/src/lib.rs:154-302 | The same in any state that satisfies the invariant, by the shape of the plan: point lookups, chunk aggregates and everything over them. |
| `Refinement.AggregateOverScan` | crates/rustafari-executor/src/lib.rs:232-247 | After the flush that precedes it, an aggregate read off chunks is the aggregate of the scanned rows; over an empty table always, unknown columns included. |
| `Refinement.AggregateOfPublished` | crates/rustafari-executor/src/lib.rs:232-247 | Whatever INSERTs have failed and whatever lies between an aggregate and its scan: once a row was published, the answer is the aggregate of the published rows. |
| `Refinement.CountStarIff` | crates/rustafari-executor/src/lib.rs:310-318 | COUNT(*) is the number of stored rows exactly when every row was published or none was: failed INSERTs leave rows that it does not count. |
| `Refinement.FilteredCountIff` | crates/rustafari-executor/src/lib.rs:232-247 | COUNT(*) under a WHERE is right exactly when as many rows satisfy the condition as were published, or none was published; where all were, exactly when every row satisfies it. Only over a table with nothing published must its lookup be safe. |
| `Witnesses.CountMissesRow` | crates/rustafari-executor/src/lib.rs:303-321 | CREATE, INSERT 1, INSERT NULL: COUNT(*) is 1, the stored rows are 2. |
| `Witnesses.CountIgnoresFilter` | crates/rustafari-executor/src/lib.rs:232-247 | CREATE, INSERT 1: COUNT(*) WHERE id = 2 is 1, not 0. |
| `Witnesses.MinOfMaxIsNull` | crates/rustafari-executor/src/lib.rs:605-629 | CREATE, INSERT MAX: MIN(id) is Null, not MAX. |
| `Witnesses.SumDependsOnFlush` | crates/rustafari-executor/src/lib.rs:550-574 | CREATE, INSERT MAX, a query, INSERT 1 and -1: SUM(id) is MAX, not MAX - 1, for every chunk size above 1. |
| `Witnesses.CountKeepsDeleted` | crates/rustafari-document/src/coll.rs:53-62 | CREATE, INSERT 1, delete that row as a document: COUNT(*) is 1, not 0; likewise for any value with a key. |
| `Witnesses.FirstComesBack` | crates/rustafari-core/src/catalog.rs:84-107 | CREATE twice under one name: some saving order makes the name find the first table again. |
| `Refinement.RowsComeFromQueries` | crates/rustafari-executor/src/lib.rs:202-282 | A statement that changes tables, anywhere below a query node, makes the query fail: rows come from queries only. |
| `Refinement.QueryKeepsData` | crates/rustafari-executor/src/lib.rs:144-302 | A query changes no row, no index and no catalog entry; it may only move buffered rows into a chunk. |
| `Refinement.CleanRunKeepsPublished` | crates/rustafari-executor/src/lib.rs:303-349 | Over a run without errors every stored row is also on the columnar side. |
| `RangeRefinement.RunsRefineReferenceInRanges` | crates/rustafari-executor/src/lib.rs:158-195 | After any run, a query over an `id` range gives the reference's rows: each as often under filters, projections, orderings and groupings; row for row, LIMIT included, from a grouping or an ordering that only equal rows tie in upwards; in order and tied with the reference's row by row under any ORDER BY of orderable columns with LIMITs above it; and under a LIMIT of no order as many of them. |
| `RangeRefinement.RangeRefinesReference` | crates/rustafari-executor/src/lib.rs:158-302 | In any state that satisfies the invariant: filters, projections, orderings and groupings over a range return the reference's rows, each as often; their order under ORDER BY is in `OrderedRangeTies`. |
| `RangeRefinement.RowForRowRefines` | crates/rustafari-executor/src/lib.rs:221-302 | A grouping over a range, or an ordering that only equal rows tie in, and filters, projections, orderings and limits above it, return the reference's rows in the reference's order. |
| `RangeRefinement.OrderingOverRange` | crates/rustafari-executor/src/lib.rs:277-302 | ORDER BY over a range gives the sequence that it gives over the scan, if its columns are orderable on the rows and only equal rows tie. |
| `RangeRefinement.OrderedRangeTies` | crates/rustafari-executor/src/lib.rs:221-302 | ORDER BY of orderable columns over a range, and LIMITs above it: the rows come in order and tie with the reference's row by row, so they are the same up to which of several tied rows stand or survive. |
| `RangeRefinement.LimitOverRange` | crates/rustafari-executor/src/lib.rs:221-231 | LIMIT over a range returns no row if the offset is at or past the end of the reference's input, else as many as the limit or as are left, none of them more often than that input has it; which ones, up to ties, an ORDER BY below it settles in `OrderedRangeTies`. |
| `BagAggregates.GroupByAgrees` | crates/rustafari-executor/src/lib.rs:261-275 | GROUP BY gives the same rows in the same order for every order of its input, as long as its sums cannot overflow. |
| `BagAggregates.AggregateAgrees` | crates/rustafari-executor/src/lib.rs:461-533 | Aggregates of rows do not depend on their order, SUM as long as absolute values total at most MAX. |
| `Invariants.RunKeepsInv` | crates/rustafari-executor/src/lib.rs:144-349 | After every run of statements, failing ones included: identifiers are fresh, each index agrees with the rows, and chunks and buffer hold the published rows in order. |
| `Invariants.ExecKeepsInv` | crates/rustafari-executor/src/lib.rs:144-349 | One plan of any shape, whether it succeeds or fails, keeps that invariant. |
| `Invariants.RunEventsKeepsRowInv` | crates/rustafari-document/src/coll.rs:53-62 | Rows deleted through document collections between statements leave indexes in agreement: postings of deleted rows stay and are harmless. |
| `EventColumns.EventsKeepRecalled` | crates/rustafari-document/src/coll.rs:53-62 | Step by step over every run of statements and document deletes: chunks and buffer of each table hold, in order of their ids, exactly the rows that were stored in it at the start or after some event and could be indexed. |
| `EventColumns.ColumnsHoldHistory` | crates/rustafari-document/src/coll.rs:53-62 | So for every table of every such run from a fresh or just loaded session: its chunks and buffer are the one list of the rows ever stored in it that could be indexed, deleted ones included, nothing else among them. |
| `EventColumns.PublishedAreStillStored` | crates/rustafari-document/src/coll.rs:53-62 | The stored rows that could be indexed are, in order, those of that list whose id is still stored. |
| `EventColumns.AggregateOfHistory` | crates/rustafari-executor/src/lib.rs:232-247 | After any such run, once a row was published, an aggregate over a table is that of all rows ever stored in it that could be indexed, deleted ones included. |
| `EventColumns.CountAfterDeletesIff` | crates/rustafari-executor/src/lib.rs:232-247 | After any such run COUNT(*) is right exactly when no row was ever published or as many rows are stored as were ever stored and could be indexed; where every stored row could be, when none of those was deleted. |
| `Invariants.InsertKeepsInv` | crates/rustafari-executor/src/lib.rs:309-319 | One row appended to its table, nothing changed in any other, the invariant kept; it succeeds exactly when its `id` can be indexed. |
| `Invariants.CreateKeepsInv` | crates/rustafari-executor/src/lib.rs:322-338 | A created table is empty in rows, chunks, buffer and index, and no other table changes. |
| `Invariants.DropKeepsInv` | crates/rustafari-executor/src/lib.rs:339-349 | DROP empties one table's rows, chunks and index and changes no other table, although its buffered rows stay. |
| `TableIdentity.CreatedIsNewAndEmpty` | crates/rustafari-core/src/catalog.rs:84-107 | Over every run, a CREATE, even over a taken or dropped name, yields a table whose id nothing stored bears. |
| `TableIdentity.DroppedStaysGone` | crates/rustafari-executor/src/lib.rs:339-349 | Whatever statements and document deletes run before and after a DROP, no row, chunk or index ever bears its table id again, and the rows left in the buffer are never published. |
| `TableIdentity.CreatedOverComesBack` | crates/rustafari-core/src/catalog.rs:84-171 | Over every run, a CREATE under a taken name leaves the old table known by its id, and some saving order gives it the name back. |
| `RowColumns.ColumnsAreTheTable` | crates/rustafari-executor/src/lib.rs:49-107 | After any run, the chunks read back as rows and then the buffer are in order the published rows, after a clean run all rows; every chunk has 1 to chunk-size rows, equal column lengths, and the data of each name at the schema's position. |
| `Columnar.ChunkRowsAreTheBatch` | crates/rustafari-executor/src/lib.rs:59-74 | Transposing a batch into columns and reading the chunk row by row gives the batch back. |
| `Columnar.ChunkShape` | crates/rustafari-storage/src/columnar.rs:110-125 | Equal column lengths, the row count, and lookup by name that agrees with the schema even when names repeat. |
| `Columnar.NormalizedIsFitted` | crates/rustafari-executor/src/lib.rs:63-68 | With distinct names, short rows appear padded with Null and long ones cut. |
| `Columnar.SumI64Slice` | crates/rustafari-storage/src/columnar.rs:45-55 | The saturating sum of the integers of a column, or none if it has none. |
| `Columnar.MinMaxI64Slice` | crates/rustafari-storage/src/columnar.rs:73-85 | The least and the greatest integer of a column, or none if it has none. |
| `Columnar.ColumnarStore.InsertChunk` | crates/rustafari-storage/src/columnar.rs:140-151 | The chunk goes last in its table's list; other tables keep theirs. |
| `Columnar.ColumnarStore.NextChunkId` | crates/rustafari-storage/src/columnar.rs:165-168 | Each call returns a new id and changes no chunk. |
| `IndexedLookups.IndexAgreesWithScan` | crates/rustafari-executor/src/lib.rs:154-201 | After any run of statements, failing INSERTs and document deletes: `id = v` from the index is the filtered scan in order, and a range is the filtered scan as a bag, exactly when the lookup is safe on the stored ids. |
| `IndexedLookups.PointIsFilter` | crates/rustafari-executor/src/lib.rs:166-177 | A point lookup equals the filtered scan exactly when its literal has a key that no stored id of another value shares; a literal without one, such as Null, is an error. |
| `IndexedLookups.RangeIsFilter` | crates/rustafari-executor/src/lib.rs:178-195 | A range lookup succeeds with the rows that the comparisons select exactly when both bounds have keys, in order, and between them lie the keys of just those ids. |
| `IndexedLookups.RangeInKeyOrder` | crates/rustafari-executor/src/lib.rs:178-195 | A range lookup returns its rows in the order of their keys, those of one key as the scan has them. |
| `IndexedLookups.IntegerRangeAscends` | crates/rustafari-executor/src/lib.rs:178-195 | Between integer bounds of one sign, over integer ids, that is ascending order of the ids. |
| `IndexedLookups.OneTypeRangeIff` | crates/rustafari-executor/src/lib.rs:178-195 | The same for ids and bounds of one type: integers of one sign and strings in order; integers across the sign only the wrong way round with no id beyond either bound; booleans in order with no id between. |
| `IndexedLookups.OneTypeNoCollision` | crates/rustafari-index/src/btree.rs:14-26 | A column of the literal's own type has no colliding keys. |
| `IndexKeys.IntKeyOrder` | crates/rustafari-index/src/btree.rs:18 | Byte order of integer keys: numeric within a sign, every negative key above every non-negative one. |
| `IndexKeys.IntKeyInjective` | crates/rustafari-index/src/btree.rs:18 | Different integers have different keys. |
| `IndexKeys.FromValueInjective` | crates/rustafari-index/src/btree.rs:14-26 | Within one type, equal keys mean equal values. |
| `IndexKeys.KeysCollideAcrossTypes` | crates/rustafari-index/src/btree.rs:17-20 | Values of different types can share a key. |
| `IndexKeys.RangeIsNumericIff` | crates/rustafari-index/src/btree.rs:79-91 | The byte range between two integer keys is the numeric range exactly when the bounds have one sign and are in order. |
| `IndexKeys.SameSignRangeIsExact` | crates/rustafari-index/src/btree.rs:79-91 | Between bounds of one sign the range is exact even in a table of mixed signs. |
| `IndexKeys.MixedSignRange` | crates/rustafari-index/src/btree.rs:79-91 | Bounds of different signs: out of order one way, the complement's ends the other way. |
| `IndexKeys.BelowSentinel` | crates/rustafari-index/src/btree.rs:84 | Every integer, boolean or string key lies below the 256-byte sentinel. |
| `BTreeIndexes.OpenRangeMissesNone` | crates/rustafari-index/src/btree.rs:79-91 | In a map whose keys are all made from values, a range without an end misses no key from its start on, and its bounds are never out of order. |
| `IndexRuns.OpenRangeAfterRuns` | crates/rustafari-index/src/btree.rs:79-91 | After any run of statements, failing INSERTs and document deletes, a range of an index without an end holds every key from its start on and fetches every row with such a key, each as often as the scan has it. |
| `IndexRuns.EventsKeepKeyed` | crates/rustafari-index/src/btree.rs:14-50 | Over every run, every key of every index is made from a value. |
| `BTreeIndexes.RangeMembers` | crates/rustafari-index/src/btree.rs:79-91 | A range holds exactly the ids posted under keys between its bounds, both included. |
| `BTreeIndexes.DeleteUndoesInsert` | crates/rustafari-index/src/btree.rs:42-66 | Deleting a posting just inserted restores the index. |
| `BTreeIndexes.RemoveFirstAt` | crates/rustafari-index/src/btree.rs:52-66 | Of several postings of an id under one key the first is the one removed. |
| `BTreeIndexes.BTreeIndex.Insert` | crates/rustafari-index/src/btree.rs:42-50 | The id is posted last under its key and nowhere else. |
| `BTreeIndexes.BTreeIndex.Delete` | crates/rustafari-index/src/btree.rs:52-66 | Removes the first posting of the id under the key, says whether there was one, and leaves no empty list. |
| `BTreeIndexes.BTreeIndex.Range` | crates/rustafari-index/src/btree.rs:79-91 | The postings between the bounds in key order; bounds out of order abort. |
| `Saturation.ChunksNeverMatterIffSteady` | crates/rustafari-executor/src/lib.rs:550-574 | For all prefixes of a column together: per-chunk saturating sums fold to the row-by-row saturating sum for every split of every prefix exactly when the column is steady. |
| `Saturation.ChunksCanMatter` | crates/rustafari-executor/src/lib.rs:550-574 | A split of three values for which the two sums differ. |
| `Saturation.SmallColumns` | crates/rustafari-storage/src/columnar.rs:45-55 | Absolute values that total at most MAX: steady, and the sum is exact. |
| `Saturation.OneSignColumns` | crates/rustafari-storage/src/columnar.rs:45-55 | Values of one sign: steady, and the sum is the exact sum clamped. |
| `Saturation.ChunksExactIffRunsFit` | crates/rustafari-executor/src/lib.rs:584-604 | For all prefixes of a column together: the per-chunk sums behind AVG are exact for every split of every prefix exactly when the sum of every run of values fits 64 bits. |
| `ColumnSums.AnyChunkingSumsIff` | crates/rustafari-executor/src/lib.rs:550-574 | For one column: per-chunk saturating sums fold to the row-by-row saturating sum for every split of it exactly when it is separable, and for that all splits in two suffice. |
| `ColumnSums.AnyChunkingExactIff` | crates/rustafari-executor/src/lib.rs:584-604 | For one column: the per-chunk sums behind AVG are exact for every split of it exactly when it is separable and its row-by-row sum is exact. |
| `ColumnSums.SeparableNotSteady` | crates/rustafari-executor/src/lib.rs:550-574 | MAX, 1, -1, MAX sums to MAX however it is cut, although its first three values do not sum alike. |
| `Aggregates.ChunksAgreeWithRows` | crates/rustafari-executor/src/lib.rs:539-656 | For every chunking, SUM, COUNT, AVG, MIN, MAX and COUNT(*) over chunks are those over rows, under a stated condition on the column. |
| `Aggregates.ChunksAgreeIffSafe` | crates/rustafari-executor/src/lib.rs:539-656 | For COUNT, MIN, MAX and COUNT(*) that condition is exact for each chunking by itself. |
| `Means.MeansAgree` | crates/rustafari-executor/src/lib.rs:584-603 | Two means are one value exactly when sum times count agrees crosswise. |
| `Means.MeanIsQuotient` | crates/rustafari-executor/src/lib.rs:498-513 | The mean's numerator times the count is the sum times its denominator, and no lesser denominator does. |
| `AllChunkings.EveryChunkingAgreesIffSafe` | crates/rustafari-executor/src/lib.rs:461-656 | For SUM, COUNT, AVG, MIN, MAX and COUNT(*): under the stated condition on the rows the chunk path agrees with the row path for every cut into pieces of 1 to chunk-size rows; for rows that fit one chunk, only under it. |
| `AllChunkings.OneRowChunksAgree` | crates/rustafari-executor/src/lib.rs:550-574 | Why the bound is needed: with chunks of one row SUM agrees for every cut of every column. |
| `CutRuns.EveryCutIsMade` | crates/rustafari-executor/src/lib.rs:49-107 | Every cut of insertable rows into pieces of 1 to chunk-size rows is what some run of INSERTs and queries leaves in the chunks. |
| `CutRuns.EveryRunAnswersIff` | crates/rustafari-executor/src/lib.rs:232-247 | An aggregate over a table is answered as from its rows after every run that makes a cut of them, if it is safe on the rows or there are none; for rows that fit one chunk, only then. |
| `Aggregates.UnknownColumn` | crates/rustafari-executor/src/lib.rs:461-656 | A missing column: an error on rows, a silent 0 or Null on chunks. |
| `Aggregates.AggregateRows` | crates/rustafari-executor/src/lib.rs:461-533 | The loop over rows computes the aggregate that the lemmas are about. |
| `Aggregates.AggregateChunks` | crates/rustafari-executor/src/lib.rs:539-656 | The loop over chunks computes the aggregate that the lemmas are about. |
| `Concurrency.EveryInterleavingConserves` | crates/rustafari-executor/src/lib.rs:49-107 | At every moment of every interleaving, chunk rows, buffered rows and rows in flight are the stored rows, each as often; chunk ids are distinct, chunks well shaped, the buffer below the chunk size; at quiescence chunks and buffer are the table. |
| `Concurrency.StepConserves` | crates/rustafari-executor/src/lib.rs:80-107 | One step of one thread moves rows between store, thread, buffer and chunks without loss. |
| `Concurrency.StepKeepsOk` | crates/rustafari-storage/src/columnar.rs:165-168 | One step keeps row ids and chunk ids in hand apart from all others. |
| `Concurrency.InsertAlone` | crates/rustafari-executor/src/lib.rs:309-321 | A thread that is not interrupted leaves the session as the sequential INSERT does. |
| `Concurrency.FlushAlone` | crates/rustafari-executor/src/lib.rs:49-78 | A flush that is not interrupted leaves the session as the sequential flush does. |
| `Concurrency.SequentialRunsLeadHere` | crates/rustafari-executor/src/lib.rs:144-349 | Threads may start over whatever any sequential run leaves. |
| `ConcurrentIndexes.EveryInterleavingIndexes` | crates/rustafari-executor/src/lib.rs:309-317 | At every moment of every interleaving of inserts and flushes, a lookup by key returns rows with that key only, none twice, and misses only rows that wait for their posting; at quiescence it is the filtered scan as a bag. |
| `ConcurrentIndexes.StepKeepsIndexRight` | crates/rustafari-executor/src/lib.rs:309-317 | One step of one thread keeps every stored row posted once under its own key, or awaited by the thread that stored it. |
| `ConcurrentIndexes.StepKeepsHands` | crates/rustafari-storage/src/table_store.rs:25-29 | No two threads ever hold the same row id, and a row that waits for its posting is in the store. |
| `Sessions.SessionState.Execute` | crates/rustafari-executor/src/lib.rs:144-370 | Executing a plan on the mutable stores gives the state and the result of `Exec`, about which the theorems are. |
| `Sessions.SessionState.FlushColumnarBuffer` | crates/rustafari-executor/src/lib.rs:49-78 | Moves the whole buffer of one table into one chunk; an empty buffer makes no chunk and takes no id. |
| `Sessions.SessionState.PushColumnarRow` | crates/rustafari-executor/src/lib.rs:80-107 | Buffers the row, and publishes exactly when the chunk size is reached. |
| `Sessions.SessionState.InsertRow` | crates/rustafari-executor/src/lib.rs:310-318 | Store, then index, then buffer; a key error stops it with the row stored. |
| `Sessions.SessionState.InsertRows` | crates/rustafari-executor/src/lib.rs:303-321 | The rows of an INSERT one by one up to the first error, with the count. |
| `Sessions.SessionState.CreateTable` | crates/rustafari-executor/src/lib.rs:322-338 | A new catalog entry, and an empty index exactly when there is a column `id`. |
| `Sessions.SessionState.DropTable` | crates/rustafari-executor/src/lib.rs:339-349 | Rows, chunks, indexes and the catalog entry go; the buffer stays. |
| `Sessions.SessionState.AnswerLookup` | crates/rustafari-executor/src/lib.rs:164-195 | Ids from the index, then their rows in that order, skipping those no longer stored. |
| `Sessions.SessionState.AggregateTable` | crates/rustafari-executor/src/lib.rs:232-247 | Flush, then chunks if there are any, else the rows of the input. |
| `Sessions.SessionState.GroupAndAggregate` | crates/rustafari-executor/src/lib.rs:248-276 | Groups gathered row by row, then one result row each in key order: what `Exec` gives, of which `GroupMeaning.GroupByMeans` says what it is. |
| `Plans.LookupDenotesPredicate` | crates/rustafari-executor/src/lib.rs:372-387 | Where a lookup replaces a predicate, both hold of the same rows. |
| `Plans.LookupFires` | crates/rustafari-executor/src/lib.rs:372-387 | An index answers an equality on its column, or a pair of bounds on it in either order, and nothing else. |
| `Where.TranslationPreservesTruth` | crates/rustafari-sql/src/plan.rs:150-219 | The predicate made of a WHERE clause holds of exactly the rows that satisfy the clause, its comparisons read as comparisons of numbers and of strings in byte order. |
| `Where.ComparisonMeans` | crates/rustafari-sql/src/plan.rs:193-211 | For each of the six operators: `c op literal` holds of a row exactly when it has a cell in column c that is in this relation to the literal; equality is that of values, and only integers and only strings are ordered. |
| `Where.LiteralOnLeftIff` | crates/rustafari-sql/src/plan.rs:193-211 | An order comparison with its literal on the left is translated correctly exactly when the literal compares with nothing. |
| `Planner.SelectAnswersQuery` | crates/rustafari-sql/src/plan.rs:229-318 | From SELECT to answer: after any clean run, planning and executing gives the rows that the clauses ask for, read off the stored rows; statements with an index range are in `SelectAnswersRange`. |
| `Planner.SelectAnswersRange` | crates/rustafari-sql/src/plan.rs:229-318 | After any run, a SELECT over an `id` range gives the rows that its clauses ask for: each as often, in its order from a grouping or an ordering that only equal rows tie in upwards, in order and up to ties under any other ORDER BY of orderable columns, LIMIT included; under a LIMIT of no order as many. |
| `Planner.PlanMeansQuery` | crates/rustafari-sql/src/plan.rs:229-318 | The plan of a SELECT, evaluated over rows, means WHERE, then ORDER BY on the table's rows, then the list, then the window. |
| `Planner.PlanReadsTable` | crates/rustafari-sql/src/plan.rs:229-318 | Every planned SELECT is a chain of query nodes over one scan of its table. |
| `Planner.QueryToPlan` | crates/rustafari-sql/src/plan.rs:229-318 | Building the root step by step yields the plan that the theorems are about, and fails on the same statements. |
| `Planner.ProjectionAsAggs` | crates/rustafari-sql/src/plan.rs:359-376 | Some list exactly when the projection is not empty and has aggregates only. |
| `Planner.ProjectionAsAggsWithGroup` | crates/rustafari-sql/src/plan.rs:379-400 | Fails exactly on an item that is neither a grouping column nor an aggregate. |
| `PlannerMeaning.SelectReadsTable` | crates/rustafari-sql/src/plan.rs:111-120 | A SELECT from a plain name reads the table of that name in "public"; of a dotted name the first part is the namespace and the rest, joined by dots, the table. |
| `PlannerMeaning.CallsMean` | crates/rustafari-sql/src/plan.rs:329-356 | SUM, COUNT, AVG, MIN and MAX each plan their own aggregate of the column that is their first argument, COUNT with a star counts rows, and nothing else is an aggregate. |
| `PlannerMeaning.ListsMean` | crates/rustafari-sql/src/plan.rs:253-280 | Without GROUP BY: a star adds nothing to the plan, a list of columns a projection of them in order, a list of aggregates these aggregates. |
| `PlannerMeaning.GroupedListsMean` | crates/rustafari-sql/src/plan.rs:379-400 | With GROUP BY: the grouping columns and then aggregates plan the grouping with these, and a column not grouped by is refused. |
| `PlannerMeaning.OrderMeans` | crates/rustafari-sql/src/plan.rs:282-301 | Each ORDER BY term that is a column orders by it, in the order written, ascending unless DESC is. |
| `PlannerMeaning.WindowOfSelect` | crates/rustafari-sql/src/plan.rs:302-326 | LIMIT and OFFSET cut the answer of the same SELECT without them: from the offset on as many rows as the limit says or as there are; without a LIMIT all that are left. |
| `SelectMeaning.StarAnswers` | crates/rustafari-sql/src/plan.rs:229-318 | From statement to answer: after any clean run SELECT * FROM t WHERE c op v ORDER BY ... returns the stored rows whose cell in c is in the relation to v, in the order of the terms. |
| `SelectMeaning.StarMeans` | crates/rustafari-sql/src/plan.rs:229-318 | The same of what such a SELECT says of any stored rows. |
| `SelectMeaning.AggregatesMean` | crates/rustafari-sql/src/plan.rs:229-318 | SELECT f(c), ... WHERE c op v is one row of these aggregates, in order, over the rows whose cell is in the relation; it fails exactly on an unknown column. |
| `SelectMeaning.GroupsOfSelectMean` | crates/rustafari-sql/src/plan.rs:229-318 | With GROUP BY k, ...: one row for each combination of key cells among those rows, these cells first and then each aggregate. |
| `OperatorMeaning.LimitMeans` | crates/rustafari-executor/src/lib.rs:221-231 | Executing LIMIT: no row if the offset is at or past the end, else the rows from the offset on, as many as the limit or as there are. |
| `OperatorMeaning.ProjectMeans` | crates/rustafari-executor/src/lib.rs:202-220 | Executing a projection: for each input row, in order, the cells of the named columns, in the order of the names, those left out that the row does not have. |
| `OperatorMeaning.FilterMeans` | crates/rustafari-executor/src/lib.rs:196-201 | Executing a filter that no index answers: its input's rows that satisfy it, in order and as often. |
| `OperatorMeaning.NotKeepsTheRest` | crates/rustafari-executor/src/lib.rs:406-423 | A condition and its negation share the rows out between them. |
| `OperatorMeaning.ConnectivesMean` | crates/rustafari-executor/src/lib.rs:406-423 | AND filters by one condition what the other leaves, and OR and AND together keep as many rows as the two conditions do. |
| `OperatorMeaning.LiteralsMean` | crates/rustafari-executor/src/lib.rs:406-423 | TRUE keeps all rows and FALSE none. |
| `OperatorMeaning.CountMeans` | crates/rustafari-executor/src/lib.rs:461-533 | COUNT(*) is the number of rows, COUNT of a column that of the rows with a cell there which is not Null. |
| `Values.AsI64Means` | crates/rustafari-executor/src/lib.rs:463-485 | A count as a 64-bit integer differs from it by a multiple of 2^64, and is it where it fits. |
| `OperatorMeaning.ExtremesMean` | crates/rustafari-executor/src/lib.rs:461-533 | MIN is an integer of the column that none is below, MAX one that none is above; Null without integers. |
| `OperatorMeaning.SumMeans` | crates/rustafari-executor/src/lib.rs:461-533 | SUM is the integers added up row by row, held at the 64-bit bounds, and their exact sum when absolute values total at most MAX; Null without integers. |
| `OperatorMeaning.AverageMeans` | crates/rustafari-executor/src/lib.rs:498-513 | AVG is the exact sum of the integers divided by their number, in lowest terms; Null without integers. |
| `StatementMeaning.CreateMeans` | crates/rustafari-executor/src/lib.rs:322-338 | After CREATE the table is found under its name, in "public" if no namespace is named, with a new id and column k of the statement as column k of its schema, a repeated name meaning the last; it has an empty index exactly if some column is called `id`. |
| `StatementMeaning.InsertMeans` | crates/rustafari-executor/src/lib.rs:303-321 | INSERT appends all rows in order and reports their number if each can be indexed; else it fails at the first that cannot, with the rows up to and including it stored. |
| `StatementMeaning.StatementsBelowQueries` | crates/rustafari-executor/src/lib.rs:154-302 | Below a filter or an aggregate a CREATE, INSERT or DROP is refused before it runs; below the other operators it runs, and the query then fails with its error or for want of rows. |
| `ProjectedOrder.OrderAfterProjectIff` | crates/rustafari-executor/src/lib.rs:202-302 | ORDER BY a column over a projection is right for all tables exactly when the column keeps its position among the columns shown, names of no column being skipped, or none is shown. |
| `ProjectedOrder.OrderThenProject` | crates/rustafari-executor/src/lib.rs:202-302 | Where the ordering columns keep their positions, ordering and projecting commute, for several columns and directions. |
| `RowOrder.ComparatorIsWeakOrder` | crates/rustafari-executor/src/lib.rs:292-300 | On orderable columns, several of them and with any of them reversed, the comparator is a total preorder. |
| `RowOrder.OneKindIsOrderable` | crates/rustafari-executor/src/lib.rs:443-459 | A column whose cells are all integers or all strings is orderable. |
| `RowOrder.ColumnOrdersIff` | crates/rustafari-executor/src/lib.rs:443-459 | One column, in either direction, orders rows up to ties exactly when it tells no two of them apart or all its cells are of the kind of two that it does. |
| `RowOrder.OrderByIsTheStableSort` | crates/rustafari-executor/src/lib.rs:277-302 | On orderable columns ORDER BY returns the one stable sorted permutation of its input; what comes first is in `OrderMeaning`. |
| `OrderMeaning.OrderByMeans` | crates/rustafari-executor/src/lib.rs:277-302 | Executing ORDER BY over orderable columns: the input's rows, each two of them the right way round in the first column that tells them apart (missing cells first, then by number or byte order, reversed by DESC), and rows that no column tells apart as they came; the first unknown column is an error. |
| `OrderMeaning.OneColumnAscends` | crates/rustafari-executor/src/lib.rs:443-459 | For one column of integers or of strings: each cell is at most the next with ASC and at least it with DESC, and rows too short for the cell come first or last. |
| `RowOrder.NullsBreakTheOrder` | crates/rustafari-executor/src/lib.rs:443-459 | An instance of the other case: a Null between two integers. |
| `Sorting.SortIsTheStableSort` | crates/rustafari-executor/src/lib.rs:292-300 | A list is the result exactly when it is a permutation, in order, with ties as they were. |
| `Sorting.SortsTie` | crates/rustafari-executor/src/lib.rs:292-300 | Whatever order the same rows come in, the sorted lists tie place by place. |
| `Sorting.SortOfBag` | crates/rustafari-executor/src/lib.rs:292-300 | Where only equal rows tie, the result does not depend on the order the rows came in. |
| `Grouping.GroupsPartitionRows` | crates/rustafari-executor/src/lib.rs:261-266 | Groups have distinct key cells, each is the in-order list of the rows with its cells, and every row is in one. |
| `Grouping.JoinInjective` | crates/rustafari-executor/src/lib.rs:264 | The NUL-joined rendering tells key lists apart. |
| `GroupMeaning.GroupByMeans` | crates/rustafari-executor/src/lib.rs:248-276 | Executing GROUP BY: for each combination of key cells among the input rows exactly one row, which is these cells and then each aggregate over the input rows that have them, in the order of the rendered keys; it fails exactly on an unknown key, or with rows on an unknown column. |
| `GroupTotals.CountCellsAddUp` | crates/rustafari-executor/src/lib.rs:267-275 | The COUNT(*) cells of the rows that GROUP BY returns add up to COUNT(*) over its input. |
| `GroupTotals.SumCellsAddUp` | crates/rustafari-executor/src/lib.rs:267-275 | Their SUM cells, a Null counting as none, add up to SUM over its input when absolute values total at most MAX. |
| `GroupTotals.SumCellsNull` | crates/rustafari-executor/src/lib.rs:267-275 | SUM over the input is Null exactly if every SUM cell is. |
| `Grouping.CollectGroups` | crates/rustafari-executor/src/lib.rs:261-266 | The loop over rows builds those groups. |
| `TableStores.TableStore.Insert` | crates/rustafari-storage/src/table_store.rs:25-29 | The row is stored under an id never given out before. |
| `TableStores.TableStore.Delete` | crates/rustafari-storage/src/table_store.rs:35-37 | Removes one row and says whether it was there. |
| `TableStores.TableStore.Update` | crates/rustafari-storage/src/table_store.rs:39-47 | Replaces a stored row and creates none. |
| `TableStores.TableStore.Scan` | crates/rustafari-storage/src/table_store.rs:49-58 | The rows of one table in ascending order of id. |
| `TableStores.TableStore.DropTable` | crates/rustafari-storage/src/table_store.rs:61-71 | Removes the rows of one table and no other. |
| `TableStores.InsertAppends` | crates/rustafari-storage/src/table_store.rs:25-29 | An insert appends to its table's scan and leaves the others as they are. |
| `Catalogs.RoundTrip` | crates/rustafari-core/src/catalog.rs:138-171 | For every enumeration order, saving and loading keeps namespaces and tables by id, keeps unshadowed names, and puts both counters above every loaded id. |
| `Catalogs.LookupsSurviveIffUnshadowed` | crates/rustafari-core/src/catalog.rs:138-171 | All lookups by name survive every enumeration order exactly when no table is hidden by another of its name. |
| `Catalogs.ShadowedReturns` | crates/rustafari-core/src/catalog.rs:152-171 | A hidden table has a saving order after which its name, which did not find it, finds it. |
| `Catalogs.CreateShadows` | crates/rustafari-core/src/catalog.rs:84-107 | A CREATE under a taken name keeps the old table under its id only, from where a reload can bring it back under the name. |
| `Catalogs.LoadIsConsistent` | crates/rustafari-core/src/catalog.rs:152-171 | A loaded catalog satisfies what sessions rely on. |
| `Catalogs.CreateIsFresh` | crates/rustafari-core/src/catalog.rs:84-107 | A created table has an unused id, is found under its name, and disturbs no other name or id. |
| `Catalogs.DropRemovesOne` | crates/rustafari-core/src/catalog.rs:130-135 | Dropping removes one name and the id it found, and nothing else. |
| `Catalogs.Catalog.CreateTable` | crates/rustafari-core/src/catalog.rs:84-107 | Takes the next id, makes the namespace if it is new, and enters the table in both maps. |
| `Catalogs.Catalog.DropTable` | crates/rustafari-core/src/catalog.rs:130-135 | Returns the table that had the name, if any, and removes it from both maps. |
| `Catalogs.Catalog.ToSnapshot` | crates/rustafari-core/src/catalog.rs:138-149 | Lists every namespace and every table by id, each once, in some order. |
| `Catalogs.Catalog.LoadSnapshot` | crates/rustafari-core/src/catalog.rs:152-171 | Replaces the whole catalog by what the snapshot's entries say in their order. |
| `Schemas.ColumnIndexIsLast` | crates/rustafari-core/src/schema.rs:61-75 | A name is found exactly when some column has it, and then the last such column. |
| `Schemas.RebuildRestores` | crates/rustafari-core/src/schema.rs:82-89 | Rebuilding the skipped lookup restores the schema that was saved. |
| `Documents.MatchesMeans` | crates/rustafari-document/src/filter.rs:132-187 | The loop with early returns decides the recursive meaning of a filter, in which conditions compare numbers, strings in byte order, and membership in lists. |
| `Documents.OneConditionMeans` | crates/rustafari-document/src/filter.rs:163-196 | For each of the eight operators: a filter of one condition matches exactly the rows that have a cell in the field which is in its relation to the operand; a missing field matches nothing, and no filter matches every row. |
| `Documents.ConnectivesMean` | crates/rustafari-document/src/filter.rs:132-160 | And is both sub-filters, Or either, Not the negation, and the conditions of a filter are asked for together. |
| `Documents.DeleteThenFind` | crates/rustafari-document/src/coll.rs:30-62 | After `delete_many(f)`, `find(f)` is empty, and no other row or table changed. |
| `Documents.DeleteByOneCondition` | crates/rustafari-document/src/coll.rs:53-62 | So `delete_many` removes exactly the ids of the table whose row has its cell in that relation, and without a filter all of them. |
| `Documents.DocumentCollection.Find` | crates/rustafari-document/src/coll.rs:30-46 | Exactly the stored rows that match, once each, in order of id. |
| `Documents.DocumentCollection.FindOne` | crates/rustafari-document/src/coll.rs:48-50 | A matching row with the least id, or none if no row matches. |
| `Documents.DocumentCollection.DeleteMany` | crates/rustafari-document/src/coll.rs:53-62 | Removes exactly the matching rows and returns how many they were. |
| `DocumentRuns.DeleteManyIsDeletes` | crates/rustafari-document/src/coll.rs:53-62 | Over a session's rows, `delete_many` is a run of single deletes and leaves indexes in agreement with rows. |
| `InvertedIndexes.RunKeepsSound` | crates/rustafari-index/src/inverted.rs:36-63 | Over every run of inserts of absent rows and of deletes, postings and recorded terms count alike and no posting list is empty. |
| `InvertedIndexes.InsertKeepsSoundIff` | crates/rustafari-index/src/inverted.rs:36-47 | An insert keeps that agreement exactly when the row has no terms recorded. |
| `InvertedIndexes.DeleteKeepsSound` | crates/rustafari-index/src/inverted.rs:49-63 | A delete keeps it, leaves nothing of the row, and touches no other row. |
| `InvertedIndexes.DeleteUndoesInsert` | crates/rustafari-index/src/inverted.rs:36-63 | Deleting a document just inserted restores the index exactly. |
| `InvertedIndexes.HitsAreScore` | crates/rustafari-index/src/inverted.rs:77-83 | Counting postings gives the number of occurrences of the query's terms in the document. |
| `InvertedIndexes.ScoreCounts` | crates/rustafari-index/src/inverted.rs:77-83 | The score is the number of places in the document and the query that hold the same term. |
| `InvertedIndexes.RankedByHitsIsRanked` | crates/rustafari-index/src/inverted.rs:71-88 | In a sound index, ranking row ids by the postings met ranks documents by the occurrences of the query's terms. |
| `InvertedIndexes.InvertedIndex.Search` | crates/rustafari-index/src/inverted.rs:71-88 | In every state, re-inserted rows included: distinct row ids that are met, most often met first, as many as asked for or as there are, none omitted met more often than one returned, whatever order the counts are listed in; in a sound index that is the ranking by score. |
| `InvertedIndexes.InvertedIndex.Insert` | crates/rustafari-index/src/inverted.rs:36-47 | One posting for each occurrence, and the terms recorded. |
| `InvertedIndexes.InvertedIndex.Delete` | crates/rustafari-index/src/inverted.rs:49-63 | Removes the row from the postings of its recorded terms and drops lists that become empty. |

## Left out

- Float64 cells, their arithmetic, rounding and order: AVG is the exact quotient, kept in lowest terms (`Average`).
- Timestamp, Date, Bytes, Document, Array and Vector cells: only Null, Bool, Int64 and String occur; the lists of `$in` and `$nin` are kept as lists.
- DESCRIBE TABLE, SHOW commands, the server shell, result printing and catalog files: reading and printing only.
- Column types are recorded but, as in the code, never checked on INSERT.
- Lock poisoning, and wrap-around of the 64-bit counters and of the 32-bit hit counts: identifiers and counts are unbounded; `n as i64` of a row count is modelled with its wrap-around.
- The library's sort, B-tree map and hash map: a stable insertion sort, maps walked in key order, and arbitrary enumeration orders stand for them; where a comparator is no order the library may return any permutation or abort, the model returns one.
- The write-ahead log, page buffer, Parquet, Iceberg, Arrow conversion and vector index.
- Text-to-tree parsing, number literals and JSON filters: statements start from a small syntax tree with literals already read, documents from the filter tree.
- Splitting text into terms: any function stands for it.
- `TransactionContext` and isolation levels: data that nothing reads.
- `TableStore::update` and `DocumentCollection::insert_one` as session steps: they bypass index and columns, and are modelled at store level only.
- One loop for each aggregate: `AggregateRows` and `AggregateChunks` keep all running values in one pass and return the one asked for.
- Error messages: errors carry their kind and the names involved, and all parse errors are one kind.
- Concurrency.EveryInterleavingConserves: threads insert and flush tables that exist; CREATE, DROP and deletes are not interleaved, because the code itself publishes a table and its index in two steps.
- ConcurrentIndexes.EveryInterleavingIndexes: bags only, since interleaved inserts may post ids out of order.
- Refinement.CleanRunsRefineReference: an aggregate must lie directly over its scan; over a filter the code answers for the whole table (`AggregateOfPublished`), and `FilteredCountIff` says when COUNT(*) is then right.
- Refinement.ExecRefinesReference: index ranges are excluded here and stated in `RangeRefinement`.
- RangeRefinement.RangeRefinesReference: bags only, since an index range comes in key order; `RowForRowRefines` and `OrderedRangeTies` add the order wherever something over the range fixes it.
- RangeRefinement.LimitOverRange: which rows a LIMIT keeps of a range without ORDER BY depends on the order of the keys (`RangeInKeyOrder`), so against the reference their number and origin are stated.
- RangeRefinement.OrderedRangeTies: columns that are not orderable on the rows give no order to state, and which of several tied rows a LIMIT keeps is open.
- Planner.SelectAnswersRange: the same limits as `RangeRefinement`.
- Aggregates.ChunksAgreeWithRows: for SUM and AVG the condition is sufficient for one chunking, and exact for all chunkings together of rows that fit one chunk (`EveryChunkingAgreesIffSafe`).
- AllChunkings.EveryChunkingAgreesIffSafe: for SUM and AVG over more rows than the chunk size the condition is sufficient only, since a session may then be unable to make the cuts that show the difference (`OneRowChunksAgree`).
- Planner.PlanMeansQuery: ORDER BY over groups or aggregates is not given a meaning, since the code reads table positions in the result rows.
- RowOrder.ComparatorIsWeakOrder: exact for one column (`ColumnOrdersIff`); for several, that each is orderable is sufficient.
- ProjectedOrder.OrderAfterProjectIff: for rows as long as the schema and exact for one ordering column; for several, `OrderThenProject` gives the sufficient condition.
- Locks inside the classes: each class method is one call on its own; the interleaving of the calls is in `Concurrency` and `ConcurrentIndexes`.
