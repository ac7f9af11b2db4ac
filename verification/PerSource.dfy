/** The report's per-source table: how many document words each source accounts for. */
module PerSource {
  import opened Aggregation
  import opened Matches
  import opened Rounding
  import opened Sets
  import opened Sorting
  import opened Tokenizer

  datatype Row = Row(id: string, matchedWords: nat, similarityPct: int)

  function FromSource(id: string): Match -> bool {
    (m: Match) => m.sourceId == id
  }

  ghost function WordsFrom(starts: seq<nat>, matches: seq<Match>, id: string): set<int> {
    WordsOf(starts, matches, FromSource(id))
  }

  ghost function RowsOf(starts: seq<nat>, matches: seq<Match>, ids: seq<string>): seq<Row> {
    if ids == [] then []
    else
      var id := ids[|ids| - 1];
      var words := |WordsFrom(starts, matches, id)|;
      RowsOf(starts, matches, ids[..|ids| - 1]) + [Row(id, words, Percent(words, |starts|))]
  }

  /** More matched words first. */
  predicate NotBelow(a: Row, b: Row) {
    a.matchedWords >= b.matchedWords
  }

  function Lookup(found: map<string, set<int>>, id: string): set<int> {
    if id in found then found[id] else {}
  }

  ghost predicate Credited(found: map<string, set<int>>, starts: seq<nat>, matches: seq<Match>) {
    forall id :: Lookup(found, id) == WordsFrom(starts, matches, id)
  }

  lemma WordsFromStep(starts: seq<nat>, matches: seq<Match>, n: nat, id: string)
    requires n < |matches|
    ensures WordsFrom(starts, matches[..n + 1], id)
         == if matches[n].sourceId == id then WordsFrom(starts, matches[..n], id) + WordsIn(starts, matches[n])
            else WordsFrom(starts, matches[..n], id)
  {
    WordsOfStep(starts, matches, n, FromSource(id));
  }

  lemma CreditStep(found: map<string, set<int>>, starts: seq<nat>, matches: seq<Match>, n: nat)
    requires n < |matches| && Credited(found, starts, matches[..n])
    ensures var id := matches[n].sourceId;
            Credited(found[id := Lookup(found, id) + WordsIn(starts, matches[n])], starts, matches[..n + 1])
  {
    hide WordsFrom, WordsIn;
    var m := matches[n];
    var next := found[m.sourceId := Lookup(found, m.sourceId) + WordsIn(starts, m)];
    forall id ensures Lookup(next, id) == WordsFrom(starts, matches[..n + 1], id) {
      WordsFromStep(starts, matches, n, id);
      assert Lookup(found, id) == WordsFrom(starts, matches[..n], id);
    }
  }

  /** What the matches credited to each source so far. */
  method Credit(starts: seq<nat>, matches: seq<Match>) returns (found: map<string, set<int>>)
    requires Ascending(starts)
    ensures Credited(found, starts, matches)
  {
    hide Credited, WordsIn;
    found := map[];
    NothingCredited(starts);
    for n := 0 to |matches|
      invariant Credited(found, starts, matches[..n])
    {
      var m := matches[n];
      var idx := TokenRange(starts, m);
      CreditStep(found, starts, matches, n);
      found := found[m.sourceId := Lookup(found, m.sourceId) + idx];
    }
    assert matches[..|matches|] == matches;
  }

  lemma NothingCredited(starts: seq<nat>)
    ensures Credited(map[], starts, [])
  {}

  /** The table: one row per listed id, each with the words beginning inside one of its matches;
      more words first, ids with equally many in the order listed. */
  ghost predicate ReportsSources(starts: seq<nat>, matches: seq<Match>, ids: seq<string>, rows: seq<Row>) {
    && (exists listed :: OneEach(ids, listed) && multiset(rows) == multiset(listed))
    && (forall r :: r in rows ==>
          && r.matchedWords == |Inside(starts, matches, (m: Match) => m.sourceId == r.id)|
          && r.similarityPct == Percent(r.matchedWords, |starts|))
    && (forall i, j :: 0 <= i < j < |rows| ==>
          || rows[i].matchedWords > rows[j].matchedWords
          || (rows[i].matchedWords == rows[j].matchedWords && Before(ids, rows[i].id, rows[j].id)))
  }

  ghost predicate OneEach(ids: seq<string>, rows: seq<Row>) {
    |rows| == |ids| && forall i :: 0 <= i < |ids| ==> rows[i].id == ids[i]
  }

  lemma {:induction false} RowsOfMeaning(starts: seq<nat>, matches: seq<Match>, ids: seq<string>)
    ensures var rows := RowsOf(starts, matches, ids);
            && OneEach(ids, rows)
            && forall r :: r in rows ==>
                 && r.matchedWords == |Inside(starts, matches, (m: Match) => m.sourceId == r.id)|
                 && r.similarityPct == Percent(r.matchedWords, |starts|)
  {
    hide Inside, WordsOf, Percent;
    if ids != [] {
      var init, id := ids[..|ids| - 1], ids[|ids| - 1];
      RowsOfMeaning(starts, matches, init);
      WordsOfIsInside(starts, matches, FromSource(id));
      SameTest(starts, matches, id);
      var rows := RowsOf(starts, matches, ids);
      assert rows[..|rows| - 1] == RowsOf(starts, matches, init);
      assert ids == init + [id];
    }
  }

  lemma SameTest(starts: seq<nat>, matches: seq<Match>, id: string)
    ensures Inside(starts, matches, FromSource(id)) == Inside(starts, matches, (m: Match) => m.sourceId == id)
  {}

  lemma BeforeById(ids: seq<string>, rows: seq<Row>, a: Row, b: Row)
    requires OneEach(ids, rows) && Before(rows, a, b)
    ensures Before(ids, a.id, b.id)
  {}

  lemma SortedReports(starts: seq<nat>, matches: seq<Match>, ids: seq<string>)
    ensures ReportsSources(starts, matches, ids, Sort(RowsOf(starts, matches, ids), NotBelow))
  {
    hide Inside, Percent, Before, RowsOf, Sort, OneEach;
    var unsorted := RowsOf(starts, matches, ids);
    var rows := Sort(unsorted, NotBelow);
    RowsOfMeaning(starts, matches, ids);
    SortSorts(unsorted, NotBelow);
    SortIsStable(unsorted, NotBelow);
    assert TotalPreorder(NotBelow);
    forall r | r in rows ensures r in unsorted {
      SortKeepsMembers(unsorted, NotBelow, r);
    }
    forall i, j | 0 <= i < j < |rows| && rows[i].matchedWords <= rows[j].matchedWords
      ensures rows[i].matchedWords == rows[j].matchedWords && Before(ids, rows[i].id, rows[j].id)
    {
      assert NotBelow(rows[i], rows[j]);
      BeforeById(ids, unsorted, rows[i], rows[j]);
    }
  }

  method PerSource(tokens: seq<Token>, matches: seq<Match>, ids: seq<string>) returns (rows: seq<Row>)
    requires Ordered(tokens)
    ensures rows == Sort(RowsOf(Starts(tokens), matches, ids), NotBelow)
    ensures ReportsSources(Starts(tokens), matches, ids, rows)
  {
    hide ReportsSources;
    var starts := Starts(tokens);
    var found := Credit(starts, matches);
    rows := [];
    for n := 0 to |ids|
      invariant rows == RowsOf(starts, matches, ids[..n])
    {
      assert ids[..n + 1][..n] == ids[..n];
      var words := |Lookup(found, ids[n])|;
      rows := rows + [Row(ids[n], words, Percent(words, |tokens|))];
    }
    assert ids[..|ids|] == ids;
    SortedReports(starts, matches, ids);
    rows := Sort(rows, NotBelow);
  }

  // ---------------------------------------------------------------- what the rows add up to

  ghost function Total(rows: seq<Row>): nat {
    if rows == [] then 0 else Total(rows[..|rows| - 1]) + rows[|rows| - 1].matchedWords
  }

  ghost function AllFrom(starts: seq<nat>, matches: seq<Match>, ids: seq<string>): set<int> {
    if ids == [] then {}
    else AllFrom(starts, matches, ids[..|ids| - 1]) + WordsFrom(starts, matches, ids[|ids| - 1])
  }

  lemma {:induction false} UnionAtMostTotal(starts: seq<nat>, matches: seq<Match>, ids: seq<string>)
    ensures |AllFrom(starts, matches, ids)| <= Total(RowsOf(starts, matches, ids))
  {
    if ids != [] {
      var init, last := ids[..|ids| - 1], ids[|ids| - 1];
      UnionAtMostTotal(starts, matches, init);
      var rows := RowsOf(starts, matches, ids);
      assert rows[..|rows| - 1] == RowsOf(starts, matches, init);
      SplitInTwo(AllFrom(starts, matches, init), WordsFrom(starts, matches, last));
      SubsetSize(WordsFrom(starts, matches, last) - AllFrom(starts, matches, init), WordsFrom(starts, matches, last));
    }
  }

  lemma {:induction false} AllFromHas(starts: seq<nat>, matches: seq<Match>, ids: seq<string>, id: string)
    requires id in ids
    ensures WordsFrom(starts, matches, id) <= AllFrom(starts, matches, ids)
  {
    var init, last := ids[..|ids| - 1], ids[|ids| - 1];
    assert ids == init + [last];
    if id != last {
      AllFromHas(starts, matches, init, id);
    }
  }

  /** No source is credited with more words than are matched at all. */
  lemma SourceWithinMatched(starts: seq<nat>, matches: seq<Match>, id: string)
    ensures WordsFrom(starts, matches, id) <= MatchedWords(starts, matches)
  {
    forall i | i in WordsFrom(starts, matches, id) ensures i in MatchedWords(starts, matches) {
      WordsOfMeaning(starts, matches, FromSource(id), i);
    }
  }

  /** When every match names a listed source, every matched word is credited to some listed
      source: the rows add up to at least the matched words, overlaps counting once each. */
  lemma RowsCoverMatched(starts: seq<nat>, matches: seq<Match>, ids: seq<string>)
    requires forall m :: m in matches ==> m.sourceId in ids
    ensures Summary(starts, matches).matchedWords <= Total(RowsOf(starts, matches, ids))
  {
    var matched, all := MatchedWords(starts, matches), AllFrom(starts, matches, ids);
    forall i | i in matched ensures i in all {
      var m :| m in matches && i in WordsIn(starts, m);
      WordsOfMeaning(starts, matches, FromSource(m.sourceId), i);
      AllFromHas(starts, matches, ids, m.sourceId);
    }
    SubsetSize(matched, all);
    UnionAtMostTotal(starts, matches, ids);
    Conservation(starts, matches);
  }
}
