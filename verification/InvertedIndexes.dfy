/** The full-text index: term -> row ids with repetition, row id -> terms, and ranked search. */
module InvertedIndexes {
  import opened Seqs
  import opened Sorting
  import opened Values

  type Term = string

  datatype TextIndex = TextIndex(postings: map<Term, seq<RowId>>, terms: map<RowId, seq<Term>>)

  const NO_TEXT := TextIndex(map[], map[])

  function Under(postings: map<Term, seq<RowId>>, t: Term): seq<RowId> {
    if t in postings then postings[t] else []
  }

  function PostingsOf(x: TextIndex, t: Term): seq<RowId> {
    Under(x.postings, t)
  }

  function TermsOf(x: TextIndex, rid: RowId): seq<Term> {
    if rid in x.terms then x.terms[rid] else []
  }

  function AddTerms(postings: map<Term, seq<RowId>>, rid: RowId, terms: seq<Term>): map<Term, seq<RowId>> {
    if terms == [] then postings
    else
      var before, t := AddTerms(postings, rid, terms[..|terms| - 1]), terms[|terms| - 1];
      before[t := Under(before, t) + [rid]]
  }

  /** The ids other than `rid`. */
  function Retain(ids: seq<RowId>, rid: RowId): seq<RowId> {
    Select((id: RowId) => id != rid, ids)
  }

  function DropTerm(postings: map<Term, seq<RowId>>, rid: RowId, t: Term): map<Term, seq<RowId>> {
    if t !in postings then postings
    else if Retain(postings[t], rid) == [] then postings - {t}
    else postings[t := Retain(postings[t], rid)]
  }

  function DropTerms(postings: map<Term, seq<RowId>>, rid: RowId, terms: seq<Term>): map<Term, seq<RowId>> {
    if terms == [] then postings
    else DropTerm(DropTerms(postings, rid, terms[..|terms| - 1]), rid, terms[|terms| - 1])
  }

  function InsertText(x: TextIndex, rid: RowId, terms: seq<Term>): TextIndex {
    TextIndex(AddTerms(x.postings, rid, terms), x.terms[rid := terms])
  }

  function DeleteText(x: TextIndex, rid: RowId): TextIndex {
    if rid !in x.terms then x
    else TextIndex(DropTerms(x.postings, rid, x.terms[rid]), x.terms - {rid})
  }

  /** A row id is posted under a term as often as the term occurs in the row's text. */
  ghost predicate CountsAgree(x: TextIndex) {
    forall t, rid :: OccursAlike(x, t, rid)
  }

  ghost predicate OccursAlike(x: TextIndex, t: Term, rid: RowId) {
    multiset(PostingsOf(x, t))[rid] == multiset(TermsOf(x, rid))[t]
  }

  ghost predicate NoEmptyPostings(x: TextIndex) {
    forall t :: t in x.postings ==> x.postings[t] != []
  }

  ghost predicate Sound(x: TextIndex) {
    CountsAgree(x) && NoEmptyPostings(x)
  }

  lemma CountSnoc<T>(s: seq<T>, x: T, y: T)
    ensures multiset(s + [x])[y] == multiset(s)[y] + if x == y then 1 else 0
  {
  }

  lemma {:induction false} AddTermsCounts(postings: map<Term, seq<RowId>>, rid: RowId, terms: seq<Term>, t: Term,
                                          id: RowId)
    ensures multiset(Under(AddTerms(postings, rid, terms), t))[id] ==
      multiset(Under(postings, t))[id] + if id == rid then multiset(terms)[t] else 0
  {
    if terms != [] {
      var front, last := terms[..|terms| - 1], terms[|terms| - 1];
      AddTermsCounts(postings, rid, front, t, id);
      assert terms == front + [last];
      CountSnoc(front, last, t);
      CountSnoc(Under(AddTerms(postings, rid, front), last), rid, id);
    }
  }

  lemma {:induction false} AddTermsNotEmpty(postings: map<Term, seq<RowId>>, rid: RowId, terms: seq<Term>)
    requires forall u :: u in postings ==> postings[u] != []
    ensures forall u :: u in AddTerms(postings, rid, terms) ==> AddTerms(postings, rid, terms)[u] != []
  {
    if terms != [] {
      AddTermsNotEmpty(postings, rid, terms[..|terms| - 1]);
    }
  }

  lemma RetainCounts(ids: seq<RowId>, rid: RowId, id: RowId)
    ensures multiset(Retain(ids, rid))[id] == if id == rid then 0 else multiset(ids)[id]
  {
    BagSelect((i: RowId) => i != rid, ids);
  }

  lemma {:induction false} DropTermsCounts(postings: map<Term, seq<RowId>>, rid: RowId, terms: seq<Term>, t: Term,
                                           id: RowId)
    ensures multiset(Under(DropTerms(postings, rid, terms), t))[id] ==
      if id == rid && t in terms then 0 else multiset(Under(postings, t))[id]
  {
    if terms != [] {
      var front, last := terms[..|terms| - 1], terms[|terms| - 1];
      DropTermsCounts(postings, rid, front, t, id);
      assert terms == front + [last];
      RetainCounts(Under(DropTerms(postings, rid, front), last), rid, id);
    }
  }

  lemma {:induction false} DropTermsNotEmpty(postings: map<Term, seq<RowId>>, rid: RowId, terms: seq<Term>)
    requires forall u :: u in postings ==> postings[u] != []
    ensures forall u :: u in DropTerms(postings, rid, terms) ==> DropTerms(postings, rid, terms)[u] != []
  {
    if terms != [] {
      DropTermsNotEmpty(postings, rid, terms[..|terms| - 1]);
    }
  }

  lemma InsertCounts(x: TextIndex, rid: RowId, terms: seq<Term>, t: Term, id: RowId)
    requires CountsAgree(x)
    ensures multiset(PostingsOf(InsertText(x, rid, terms), t))[id] ==
      multiset(TermsOf(x, id))[t] + if id == rid then multiset(terms)[t] else 0
  {
    AddTermsCounts(x.postings, rid, terms, t, id);
    assert OccursAlike(x, t, id);
  }

  /** Inserting text for a row id keeps the counts in agreement exactly when no terms were recorded for
      it: for a row already indexed, its old postings would stay. */
  lemma InsertKeepsSoundIff(x: TextIndex, rid: RowId, terms: seq<Term>)
    requires Sound(x)
    ensures Sound(InsertText(x, rid, terms)) <==> TermsOf(x, rid) == []
  {
    var x' := InsertText(x, rid, terms);
    if TermsOf(x, rid) == [] {
      AddTermsNotEmpty(x.postings, rid, terms);
      forall t, id ensures OccursAlike(x', t, id) {
        InsertCounts(x, rid, terms, t, id);
        assert TermsOf(x', id) == if id == rid then terms else TermsOf(x, id);
      }
    } else {
      var t := TermsOf(x, rid)[0];
      InsertCounts(x, rid, terms, t, rid);
      CountsMembers(TermsOf(x, rid), t);
      assert TermsOf(x', rid) == terms;
      assert !OccursAlike(x', t, rid);
    }
  }

  /** Deleting a row id keeps the counts in agreement; afterwards nothing is posted or recorded for it. */
  lemma DeleteKeepsSound(x: TextIndex, rid: RowId)
    requires Sound(x)
    ensures
      var x' := DeleteText(x, rid);
      && Sound(x') && rid !in x'.terms
      && (forall t :: rid !in PostingsOf(x', t))
      && (forall id :: id != rid ==> TermsOf(x', id) == TermsOf(x, id))
  {
    var x' := DeleteText(x, rid);
    forall t, id ensures OccursAlike(x', t, id) {
      assert OccursAlike(x, t, id);
      if rid in x.terms {
        DropTermsCounts(x.postings, rid, x.terms[rid], t, id);
        CountsMembers(x.terms[rid], t);
      }
    }
    if rid in x.terms {
      DropTermsNotEmpty(x.postings, rid, x.terms[rid]);
    }
    forall t ensures rid !in PostingsOf(x', t) {
      assert OccursAlike(x', t, rid);
      assert multiset(TermsOf(x', rid))[t] == 0;
      CountsMembers(PostingsOf(x', t), rid);
    }
  }

  lemma CountsMembers<T>(s: seq<T>, x: T)
    ensures x in s <==> multiset(s)[x] > 0
  {
    assert x in s <==> x in multiset(s);
  }

  // ----- deleting undoes inserting

  lemma NothingPosted(x: TextIndex, rid: RowId, t: Term)
    requires Sound(x) && rid !in x.terms
    ensures rid !in PostingsOf(x, t)
  {
    assert OccursAlike(x, t, rid);
    CountsMembers(PostingsOf(x, t), rid);
  }

  lemma {:induction false} AddTermsRetained(postings: map<Term, seq<RowId>>, rid: RowId, terms: seq<Term>, t: Term)
    requires rid !in Under(postings, t)
    ensures Retain(Under(AddTerms(postings, rid, terms), t), rid) == Under(postings, t)
    ensures t !in terms ==> Under(AddTerms(postings, rid, terms), t) == Under(postings, t)
    ensures t in AddTerms(postings, rid, terms) <==> t in postings || t in terms
  {
    if terms == [] {
      SelectAll((id: RowId) => id != rid, Under(postings, t));
    } else {
      var front, last := terms[..|terms| - 1], terms[|terms| - 1];
      AddTermsRetained(postings, rid, front, t);
      assert terms == front + [last];
      if t == last {
        RetainOneMore(Under(AddTerms(postings, rid, front), t), rid);
      }
    }
  }

  lemma RetainOneMore(ids: seq<RowId>, rid: RowId)
    ensures Retain(ids + [rid], rid) == Retain(ids, rid)
  {
    Snoc(ids, rid);
  }

  lemma RetainTwice(ids: seq<RowId>, rid: RowId)
    ensures Retain(Retain(ids, rid), rid) == Retain(ids, rid)
  {
    SelectAll((id: RowId) => id != rid, Retain(ids, rid));
  }

  lemma {:induction false} DropTermsUnder(postings: map<Term, seq<RowId>>, rid: RowId, terms: seq<Term>, t: Term)
    ensures Under(DropTerms(postings, rid, terms), t) ==
      if t in terms then Retain(Under(postings, t), rid) else Under(postings, t)
    ensures t in DropTerms(postings, rid, terms) <==>
      t in postings && (t in terms ==> Retain(Under(postings, t), rid) != [])
  {
    if terms != [] {
      var front, last := terms[..|terms| - 1], terms[|terms| - 1];
      DropTermsUnder(postings, rid, front, t);
      assert terms == front + [last];
      RetainTwice(Under(postings, t), rid);
      assert Retain([], rid) == [];
    }
  }

  /** Deleting a document just inserted restores the index exactly. */
  lemma DeleteUndoesInsert(x: TextIndex, rid: RowId, terms: seq<Term>)
    requires Sound(x) && rid !in x.terms
    ensures DeleteText(InsertText(x, rid, terms), rid) == x
  {
    var added := AddTerms(x.postings, rid, terms);
    var dropped := DropTerms(added, rid, terms);
    forall t ensures (t in dropped <==> t in x.postings) && (t in x.postings ==> dropped[t] == x.postings[t]) {
      NothingPosted(x, rid, t);
      AddTermsRetained(x.postings, rid, terms, t);
      DropTermsUnder(added, rid, terms, t);
    }
    assert dropped == x.postings;
    assert x.terms[rid := terms] - {rid} == x.terms;
  }

  // ----- runs

  datatype TextEvent = InsertEvent(rid: RowId, terms: seq<Term>) | DeleteEvent(rid: RowId)

  function RunText(x: TextIndex, events: seq<TextEvent>): TextIndex
    decreases |events|
  {
    if events == [] then x
    else
      match events[0]
      case InsertEvent(rid, terms) => RunText(InsertText(x, rid, terms), events[1..])
      case DeleteEvent(rid) => RunText(DeleteText(x, rid), events[1..])
  }

  /** Every insert of the run is for a row id not in the index at that moment. */
  predicate InsertsAbsent(x: TextIndex, events: seq<TextEvent>)
    decreases |events|
  {
    events != [] ==>
      match events[0] {
        case InsertEvent(rid, terms) => rid !in x.terms && InsertsAbsent(InsertText(x, rid, terms), events[1..])
        case DeleteEvent(rid) => InsertsAbsent(DeleteText(x, rid), events[1..])
      }
  }

  lemma {:induction false} RunKeepsSound(x: TextIndex, events: seq<TextEvent>)
    requires Sound(x) && InsertsAbsent(x, events)
    ensures Sound(RunText(x, events))
    decreases |events|
  {
    if events != [] {
      match events[0]
      case InsertEvent(rid, terms) =>
        InsertKeepsSoundIff(x, rid, terms);
        RunKeepsSound(InsertText(x, rid, terms), events[1..]);
      case DeleteEvent(rid) =>
        DeleteKeepsSound(x, rid);
        RunKeepsSound(DeleteText(x, rid), events[1..]);
    }
  }

  // ----- search

  /** How often a row id is met when the postings of each query term are walked. */
  function Hits(x: TextIndex, query: seq<Term>, rid: RowId): nat {
    if query == [] then 0
    else Hits(x, query[..|query| - 1], rid) + multiset(PostingsOf(x, query[|query| - 1]))[rid]
  }

  /** The score of a document: over the query's terms, with repetition, how often each occurs in it. */
  function Score(terms: seq<Term>, query: seq<Term>): nat {
    if query == [] then 0
    else Score(terms, query[..|query| - 1]) + multiset(terms)[query[|query| - 1]]
  }

  lemma {:induction false} HitsAreScore(x: TextIndex, query: seq<Term>, rid: RowId)
    requires Sound(x)
    ensures Hits(x, query, rid) == Score(TermsOf(x, rid), query)
  {
    if query != [] {
      HitsAreScore(x, query[..|query| - 1], rid);
      assert OccursAlike(x, query[|query| - 1], rid);
    }
  }

  lemma {:induction false} ScoreIsPositive(terms: seq<Term>, query: seq<Term>)
    ensures Score(terms, query) > 0 <==> exists t :: t in query && t in terms
  {
    if query != [] {
      var front, last := query[..|query| - 1], query[|query| - 1];
      assert query == front + [last];
      ScoreIsPositive(terms, front);
      CountsMembers(terms, last);
    }
  }

  /** The pairs of an occurrence in the document and a term of the query. */
  function Pairs(terms: seq<Term>, query: seq<Term>): set<(nat, nat)> {
    set i, j | 0 <= i < |terms| && 0 <= j < |query| && terms[i] == query[j] :: (i, j)
  }

  lemma {:induction false} PairsWithLast(terms: seq<Term>, query: seq<Term>)
    requires query != []
    ensures |Pairs(terms, query)| == |Pairs(terms, query[..|query| - 1])| + multiset(terms)[query[|query| - 1]]
  {
    if terms == [] {
      assert Pairs(terms, query) == {} && Pairs(terms, query[..|query| - 1]) == {};
    } else {
      var front, t, n := query[..|query| - 1], query[|query| - 1], |terms| - 1;
      var before := terms[..n];
      PairsWithLast(before, query);
      CountSnoc(before, terms[n], t);
      assert terms == before + [terms[n]];
      LastRow(terms, query);
      LastRow(terms, front);
      var row, row' := RowOfPairs(terms, query), RowOfPairs(terms, front);
      if terms[n] == t {
        assert row == row' + {(n, |query| - 1)};
      } else {
        assert row == row';
      }
    }
  }

  /** The pairs of the document's last term. */
  function RowOfPairs(terms: seq<Term>, query: seq<Term>): set<(nat, nat)>
    requires terms != []
  {
    set j | 0 <= j < |query| && terms[|terms| - 1] == query[j] :: (|terms| - 1, j)
  }

  lemma LastRow(terms: seq<Term>, query: seq<Term>)
    requires terms != []
    ensures |Pairs(terms, query)| == |Pairs(terms[..|terms| - 1], query)| + |RowOfPairs(terms, query)|
  {
    assert Pairs(terms, query) == Pairs(terms[..|terms| - 1], query) + RowOfPairs(terms, query);
    assert Pairs(terms[..|terms| - 1], query) !! RowOfPairs(terms, query);
  }

  /** The score counts the places in the document and the query that hold the same term. */
  lemma {:induction false} ScoreCounts(terms: seq<Term>, query: seq<Term>)
    ensures Score(terms, query) == |Pairs(terms, query)|
  {
    if query == [] {
      assert Pairs(terms, query) == {};
    } else {
      ScoreCounts(terms, query[..|query| - 1]);
      PairsWithLast(terms, query);
    }
  }

  function ScoreOf(x: TextIndex, query: seq<Term>, rid: RowId): nat {
    Score(TermsOf(x, rid), query)
  }

  /** What a ranked answer is, for a score that is positive on the matching documents only: distinct matching
      documents, best first, and as many as asked for, none of those left out better than one returned. */
  ghost predicate RankedBy(score: RowId -> nat, matching: set<RowId>, k: nat, out: seq<RowId>) {
    && Distinct(out)
    && (forall rid :: rid in out ==> rid in matching)
    && (forall i, j :: 0 <= i < j < |out| ==> score(out[i]) >= score(out[j]))
    && (forall rid, id :: rid in out && id !in out ==> score(id) <= score(rid))
    && |out| == if k < |matching| then k else |matching|
  }

  ghost predicate MatchesBy(score: RowId -> nat, matching: set<RowId>) {
    forall rid :: rid in matching <==> score(rid) > 0
  }

  function HitsIn(x: TextIndex, query: seq<Term>): RowId -> nat {
    (rid: RowId) => Hits(x, query, rid)
  }

  /** The row ids met under the query's terms. */
  function Met(x: TextIndex, query: seq<Term>): set<RowId> {
    set t, rid | t in query && rid in PostingsOf(x, t) :: rid
  }

  lemma {:induction false} MetAre(x: TextIndex, query: seq<Term>, rid: RowId)
    ensures Hits(x, query, rid) > 0 <==> exists t :: t in query && rid in PostingsOf(x, t)
  {
    if query != [] {
      var front, last := query[..|query| - 1], query[|query| - 1];
      assert query == front + [last];
      MetAre(x, front, rid);
      CountsMembers(PostingsOf(x, last), rid);
    }
  }

  lemma MetMatch(x: TextIndex, query: seq<Term>)
    ensures MatchesBy(HitsIn(x, query), Met(x, query))
  {
    forall rid ensures rid in Met(x, query) <==> HitsIn(x, query)(rid) > 0 {
      MetAre(x, query, rid);
    }
  }

  function ScoreIn(x: TextIndex, query: seq<Term>): RowId -> nat {
    (rid: RowId) => ScoreOf(x, query, rid)
  }

  function Matching(x: TextIndex, query: seq<Term>): set<RowId> {
    set rid | rid in x.terms && ScoreOf(x, query, rid) > 0
  }

  ghost predicate Ranked(x: TextIndex, query: seq<Term>, k: nat, out: seq<RowId>) {
    RankedBy(ScoreIn(x, query), Matching(x, query), k, out)
  }

  lemma ScoresMatch(x: TextIndex, query: seq<Term>)
    ensures MatchesBy(ScoreIn(x, query), Matching(x, query))
  {
    forall rid ensures rid in Matching(x, query) <==> ScoreIn(x, query)(rid) > 0 {
      if rid !in x.terms {
        ScoreIsPositive([], query);
      }
    }
  }

  lemma SameRanking(score: RowId -> nat, other: RowId -> nat, matching: set<RowId>, k: nat, out: seq<RowId>)
    requires RankedBy(score, matching, k, out) && forall rid :: score(rid) == other(rid)
    ensures RankedBy(other, matching, k, out)
  {
  }

  /** In a sound index, ranking by what the walk meets is ranking by the documents' own terms. */
  lemma RankedByHitsIsRanked(x: TextIndex, query: seq<Term>, k: nat, out: seq<RowId>)
    requires Sound(x) && RankedBy(HitsIn(x, query), Met(x, query), k, out)
    ensures Ranked(x, query, k, out)
  {
    forall rid ensures HitsIn(x, query)(rid) == ScoreIn(x, query)(rid) {
      HitsAreScore(x, query, rid);
    }
    MetMatch(x, query);
    ScoresMatch(x, query);
    assert Met(x, query) == Matching(x, query);
    SameRanking(HitsIn(x, query), ScoreIn(x, query), Met(x, query), k, out);
  }

  class InvertedIndex {
    const tokenize: string -> seq<Term>
    var index: map<Term, seq<RowId>>
    var docTerms: map<RowId, seq<Term>>

    constructor (tokenize: string -> seq<Term>)
      ensures this.tokenize == tokenize && State() == NO_TEXT && Sound(State())
    {
      this.tokenize := tokenize;
      index, docTerms := map[], map[];
    }

    ghost function State(): TextIndex
      reads this
    {
      TextIndex(index, docTerms)
    }

    method Insert(rid: RowId, text: string)
      modifies this
      ensures State() == InsertText(old(State()), rid, tokenize(text))
    {
      var terms := tokenize(text);
      for i := 0 to |terms|
        invariant index == AddTerms(old(index), rid, terms[..i]) && docTerms == old(docTerms)
      {
        assert terms[..i + 1][..i] == terms[..i];
        var t := terms[i];
        index := index[t := (if t in index then index[t] else []) + [rid]];
      }
      assert terms[..|terms|] == terms;
      docTerms := docTerms[rid := terms];
    }

    method Delete(rid: RowId)
      modifies this
      ensures State() == DeleteText(old(State()), rid)
    {
      if rid !in docTerms {
        return;
      }
      var terms := docTerms[rid];
      docTerms := docTerms - {rid};
      for i := 0 to |terms|
        invariant index == DropTerms(old(index), rid, terms[..i]) && docTerms == old(docTerms) - {rid}
      {
        assert terms[..i + 1][..i] == terms[..i];
        var t := terms[i];
        if t in index {
          var ids := Retain(index[t], rid);
          index := if ids == [] then index - {t} else index[t := ids];
        }
      }
      assert terms[..|terms|] == terms;
    }

    /** Counts, for every row id met, how often it is met. */
    method CountHits(query: seq<Term>) returns (counts: map<RowId, nat>)
      ensures forall rid :: rid in counts <==> Hits(State(), query, rid) > 0
      ensures forall rid :: rid in counts ==> counts[rid] == Hits(State(), query, rid)
    {
      counts := map[];
      for i := 0 to |query|
        invariant forall rid :: rid in counts <==> Hits(State(), query[..i], rid) > 0
        invariant forall rid :: rid in counts ==> counts[rid] == Hits(State(), query[..i], rid)
      {
        assert query[..i + 1][..i] == query[..i];
        ghost var before := counts;
        counts := AddHits(counts, if query[i] in index then index[query[i]] else []);
        forall rid ensures CountOf(counts, rid) == Hits(State(), query[..i + 1], rid) {
          assert CountOf(before, rid) == Hits(State(), query[..i], rid);
        }
      }
      assert query[..|query|] == query;
    }

    static method AddHits(start: map<RowId, nat>, ids: seq<RowId>) returns (counts: map<RowId, nat>)
      requires forall rid :: rid in start ==> start[rid] > 0
      ensures forall rid :: rid in counts ==> counts[rid] > 0
      ensures forall rid :: CountOf(counts, rid) == CountOf(start, rid) + multiset(ids)[rid]
    {
      counts := start;
      for j := 0 to |ids|
        invariant forall rid :: rid in counts ==> counts[rid] > 0
        invariant forall rid :: CountOf(counts, rid) == CountOf(start, rid) + multiset(ids[..j])[rid]
      {
        assert ids[..j + 1] == ids[..j] + [ids[j]];
        counts := counts[ids[j] := CountOf(counts, ids[j]) + 1];
      }
      assert ids[..|ids|] == ids;
    }

    /** The counts are listed in whatever order the hash map has, then sorted by count, best first. */
    method Search(query: string, k: nat) returns (out: seq<RowId>)
      ensures RankedBy(HitsIn(State(), tokenize(query)), Met(State(), tokenize(query)), k, out)
      ensures Sound(State()) ==> Ranked(State(), tokenize(query), k, out)
    {
      var terms := tokenize(query);
      var counts := CountHits(terms);
      var listed := ListCounts(counts);
      var sorted := StableSort(Better(), listed);
      MetMatch(State(), terms);
      RankedOrder(HitsIn(State(), terms), Met(State(), terms), counts, listed);
      var n := if k < |sorted| then k else |sorted|;
      out := Firsts(sorted[..n]);
      TopIsRanked(HitsIn(State(), terms), Met(State(), terms), sorted, k);
      if Sound(State()) {
        RankedByHitsIsRanked(State(), terms, k, out);
      }
    }
  }

  function CountOf(counts: map<RowId, nat>, rid: RowId): nat {
    if rid in counts then counts[rid] else 0
  }

  /** Higher counts first. */
  function Better(): ((RowId, nat), (RowId, nat)) -> bool {
    (a: (RowId, nat), b: (RowId, nat)) => a.1 > b.1
  }

  ghost predicate Lists(listed: seq<(RowId, nat)>, counts: map<RowId, nat>) {
    && (forall i, j :: 0 <= i < j < |listed| ==> listed[i].0 != listed[j].0)
    && (forall p :: p in listed <==> p.0 in counts && counts[p.0] == p.1)
  }

  method ListCounts(counts: map<RowId, nat>) returns (listed: seq<(RowId, nat)>)
    ensures Lists(listed, counts)
  {
    var left := counts.Keys;
    listed := [];
    while left != {}
      invariant left <= counts.Keys
      invariant forall i, j :: 0 <= i < j < |listed| ==> listed[i].0 != listed[j].0
      invariant forall p :: p in listed <==> p.0 in counts.Keys - left && counts[p.0] == p.1
      decreases |left|
    {
      var rid :| rid in left;
      assert forall i :: 0 <= i < |listed| ==> listed[i] in listed;
      listed := listed + [(rid, counts[rid])];
      left := left - {rid};
    }
  }

  /** `s` pairs each matching document with its score, once. */
  ghost predicate Scored(score: RowId -> nat, matching: set<RowId>, s: seq<(RowId, nat)>) {
    && (forall i, j :: 0 <= i < j < |s| ==> s[i].0 != s[j].0)
    && (forall p :: p in s <==> p.0 in matching && p.1 == score(p.0))
  }

  lemma DistinctFirsts(s: seq<(RowId, nat)>, r: seq<(RowId, nat)>)
    requires multiset(r) == multiset(s)
    requires forall i, j :: 0 <= i < j < |s| ==> s[i].0 != s[j].0
    ensures forall i, j :: 0 <= i < j < |r| ==> r[i].0 != r[j].0
  {
    var first := (p: (RowId, nat)) => p.0;
    BagMapAgrees(first, s, r);
    assert Distinct(Map(first, s));
    forall i, j | 0 <= i < j < |r| ensures r[i].0 != r[j].0 {
      if r[i].0 == r[j].0 {
        var firsts := Map(first, r);
        TwiceCounted(firsts, i, j);
        DistinctCount(Map(first, s), firsts[i]);
      }
    }
  }

  lemma TwiceCounted<T>(s: seq<T>, i: nat, j: nat)
    requires i < j < |s| && s[i] == s[j]
    ensures multiset(s)[s[i]] >= 2
  {
    assert s == s[..j] + s[j..];
    assert s[i] in s[..j] && s[j] in s[j..];
    CountsMembers(s[..j], s[i]);
    CountsMembers(s[j..], s[i]);
  }

  lemma RankedOrder(score: RowId -> nat, matching: set<RowId>, counts: map<RowId, nat>, listed: seq<(RowId, nat)>)
    requires MatchesBy(score, matching) && Lists(listed, counts)
    requires forall rid :: rid in counts <==> score(rid) > 0
    requires forall rid :: rid in counts ==> counts[rid] == score(rid)
    ensures var sorted := StableSort(Better(), listed);
      Scored(score, matching, sorted) && InOrder(Better(), sorted)
  {
    var sorted := StableSort(Better(), listed);
    SortIsStable(Better(), listed);
    SameMembers(sorted, listed);
    DistinctFirsts(listed, sorted);
  }

  function FirstSet(s: seq<(RowId, nat)>): set<RowId> {
    set p | p in s :: p.0
  }

  lemma FirstSetSnoc(s: seq<(RowId, nat)>, p: (RowId, nat))
    ensures FirstSet(s + [p]) == FirstSet(s) + {p.0}
  {
    assert p in s + [p];
  }

  lemma {:induction false} FirstsOf(s: seq<(RowId, nat)>)
    requires forall i, j :: 0 <= i < j < |s| ==> s[i].0 != s[j].0
    ensures |FirstSet(s)| == |s|
  {
    if s != [] {
      var front, last := s[..|s| - 1], s[|s| - 1];
      FirstsOf(front);
      assert s == front + [last];
      FirstSetSnoc(front, last);
      assert forall p :: p in front ==> p.0 != last.0;
    }
  }

  lemma MatchingSize(score: RowId -> nat, matching: set<RowId>, s: seq<(RowId, nat)>)
    requires Scored(score, matching, s)
    ensures |matching| == |s|
  {
    FirstsOf(s);
    forall rid | rid in matching ensures rid in FirstSet(s) {
      assert (rid, score(rid)) in s;
    }
    assert FirstSet(s) == matching;
  }

  function Firsts(s: seq<(RowId, nat)>): seq<RowId> {
    Map((p: (RowId, nat)) => p.0, s)
  }

  lemma OmittedAreNoBetter(score: RowId -> nat, matching: set<RowId>, sorted: seq<(RowId, nat)>, n: nat,
                           rid: RowId, id: RowId)
    requires MatchesBy(score, matching) && Scored(score, matching, sorted) && InOrder(Better(), sorted) && n <= |sorted|
    requires rid in Firsts(sorted[..n]) && id !in Firsts(sorted[..n])
    ensures score(id) <= score(rid)
  {
    var out := Firsts(sorted[..n]);
    forall m | 0 <= m < n ensures sorted[m].0 in out {
      assert out[m] == sorted[m].0;
    }
    if score(id) > 0 {
      var p := (id, score(id));
      assert p in sorted;
      var j :| 0 <= j < |sorted| && sorted[j] == p;
      var i :| 0 <= i < n && out[i] == rid;
      assert sorted[i] in sorted;
      assert sorted[j].0 == id && j >= n;
      assert !Better()(sorted[j], sorted[i]);
    }
  }

  /** The first `k` of the scored documents, best first, are a ranked answer. */
  lemma TopIsRanked(score: RowId -> nat, matching: set<RowId>, sorted: seq<(RowId, nat)>, k: nat)
    requires MatchesBy(score, matching) && Scored(score, matching, sorted) && InOrder(Better(), sorted)
    ensures RankedBy(score, matching, k, Firsts(sorted[..if k < |sorted| then k else |sorted|]))
  {
    var n := if k < |sorted| then k else |sorted|;
    var out := Firsts(sorted[..n]);
    MatchingSize(score, matching, sorted);
    forall i | 0 <= i < n ensures out[i] == sorted[i].0 && out[i] in matching && score(out[i]) == sorted[i].1 {
      assert sorted[i] in sorted;
    }
    forall i, j | 0 <= i < j < n ensures score(out[i]) >= score(out[j]) {
      assert !Better()(sorted[j], sorted[i]);
    }
    forall rid, id | rid in out && id !in out ensures score(id) <= score(rid) {
      OmittedAreNoBetter(score, matching, sorted, n, rid, id);
    }
  }
}
