/** The report's totals: which document words are matched, how, and how confidently. */
module Aggregation {
  import opened Matches
  import opened Rounding
  import opened Sets
  import opened Tokenizer

  /** Percentages are in hundredths of a percent point. */
  datatype Overall = Overall(
    similarityPct: int,
    verbatimPct: int,
    paraphrasePct: int,
    translatedPct: int,
    confidentPct: int,
    reviewPct: int,
    reviewCount: nat,
    matchedWords: nat,
    totalWords: nat,
    matchCount: nat,
    sourceCount: nat)

  datatype Breakdown = Breakdown(confidentPct: int, reviewPct: int, reviewCount: nat)

  // ---------------------------------------------------------------- words of a match

  function Starts(tokens: seq<Token>): (starts: seq<nat>)
    requires Ordered(tokens)
    ensures |starts| == |tokens|
    ensures forall i :: 0 <= i < |starts| ==> starts[i] == tokens[i].start
    ensures Ascending(starts)
  {
    var starts := seq(|tokens|, i requires 0 <= i < |tokens| => tokens[i].start);
    assert forall i, j :: 0 <= i < j < |tokens| ==> tokens[i].start < tokens[i].end <= tokens[j].start;
    starts
  }

  ghost predicate Ascending(starts: seq<nat>) {
    forall i, j :: 0 <= i < j < |starts| ==> starts[i] <= starts[j]
  }

  /** The leftmost insertion point of `x`. */
  function BisectLeft(starts: seq<nat>, x: int): (lo: nat)
    ensures lo <= |starts|
    ensures Ascending(starts) ==> forall i :: 0 <= i < |starts| ==> (i < lo <==> starts[i] < x)
  {
    if starts == [] || starts[|starts| - 1] < x then |starts| else BisectLeft(starts[..|starts| - 1], x)
  }

  /** `range(lo, hi)` */
  function Range(lo: int, hi: int): (r: set<int>)
    ensures r == Interval(lo, hi)
    decreases hi - lo
  {
    if lo < hi then Range(lo, hi - 1) + {hi - 1} else {}
  }

  /** The words that begin inside the document span of `m`. */
  ghost function WordsIn(starts: seq<nat>, m: Match): set<int> {
    set i | i in Interval(0, |starts|) && m.docStart <= starts[i] < m.docEnd
  }

  method TokenRange(starts: seq<nat>, m: Match) returns (idx: set<int>)
    requires Ascending(starts)
    ensures idx == WordsIn(starts, m)
  {
    var lo, hi := BisectLeft(starts, m.docStart), BisectLeft(starts, m.docEnd);
    idx := Range(lo, hi);
  }

  /** The words collected over the matches satisfying `p`. */
  ghost function WordsOf(starts: seq<nat>, matches: seq<Match>, p: Match -> bool): set<int> {
    if matches == [] then
      {}
    else
      var m := matches[|matches| - 1];
      WordsOf(starts, matches[..|matches| - 1], p) + (if p(m) then WordsIn(starts, m) else {})
  }

  lemma WordsOfStep(starts: seq<nat>, matches: seq<Match>, n: nat, p: Match -> bool)
    requires n < |matches|
    ensures WordsOf(starts, matches[..n + 1], p)
         == WordsOf(starts, matches[..n], p) + (if p(matches[n]) then WordsIn(starts, matches[n]) else {})
  {
    assert matches[..n + 1][..n] == matches[..n];
  }

  /** A word is collected exactly when it begins inside some match satisfying `p`. */
  lemma {:induction false} WordsOfMeaning(starts: seq<nat>, matches: seq<Match>, p: Match -> bool, i: int)
    ensures i in WordsOf(starts, matches, p) <==> exists m :: m in matches && p(m) && i in WordsIn(starts, m)
    decreases |matches|
  {
    if matches != [] {
      var init, last := matches[..|matches| - 1], matches[|matches| - 1];
      assert matches == init + [last];
      WordsOfMeaning(starts, init, p, i);
    }
  }

  // ---------------------------------------------------------------- confidence

  predicate Any(m: Match) { true }

  predicate IsVerbatim(m: Match) { m.kind == Verbatim }

  predicate IsParaphrase(m: Match) { m.kind == Paraphrase }

  predicate IsTranslated(m: Match) { m.kind == Translated }

  predicate IsReview(m: Match) { m.band == Review }

  predicate IsConfident(m: Match) { !IsReview(m) }

  function CountReview(matches: seq<Match>): nat {
    if matches == [] then 0
    else CountReview(matches[..|matches| - 1]) + (if IsReview(matches[|matches| - 1]) then 1 else 0)
  }

  function Split(confident: set<int>, review: set<int>, reviewCount: nat, total: nat): Breakdown {
    Breakdown(Percent(|confident|, total), Percent(|review - confident|, total), reviewCount)
  }

  ghost function BreakdownOf(starts: seq<nat>, matches: seq<Match>): Breakdown {
    Split(WordsOf(starts, matches, IsConfident), WordsOf(starts, matches, IsReview), CountReview(matches), |starts|)
  }

  /** The words that begin inside some match satisfying `p`. */
  ghost function Inside(starts: seq<nat>, matches: seq<Match>, p: Match -> bool): set<int> {
    set i | 0 <= i < |starts| && Within(starts[i], matches, p)
  }

  /** Position `x` lies in the document span of some match satisfying `p`. */
  ghost predicate Within(x: nat, matches: seq<Match>, p: Match -> bool) {
    exists m :: m in matches && p(m) && m.docStart <= x < m.docEnd
  }

  ghost function Positions(matches: seq<Match>, p: Match -> bool): set<nat> {
    set k: nat | k < |matches| && p(matches[k])
  }

  lemma WordIsWithin(starts: seq<nat>, matches: seq<Match>, p: Match -> bool, i: int)
    ensures i in WordsOf(starts, matches, p) <==> 0 <= i < |starts| && Within(starts[i], matches, p)
  {
    WordsOfMeaning(starts, matches, p, i);
    assert forall m :: i in WordsIn(starts, m) <==> 0 <= i < |starts| && m.docStart <= starts[i] < m.docEnd;
  }

  lemma WordsOfIsInside(starts: seq<nat>, matches: seq<Match>, p: Match -> bool)
    ensures WordsOf(starts, matches, p) == Inside(starts, matches, p)
  {
    hide WordsOf, Within;
    forall i ensures i in WordsOf(starts, matches, p) <==> i in Inside(starts, matches, p) {
      WordIsWithin(starts, matches, p, i);
    }
  }

  lemma {:induction false} CountReviewMeaning(matches: seq<Match>)
    ensures CountReview(matches) == |Positions(matches, (m: Match) => m.band == Review)|
  {
    var p := (m: Match) => m.band == Review;
    if matches != [] {
      var last := |matches| - 1;
      CountReviewMeaning(matches[..last]);
      if p(matches[last]) {
        assert Positions(matches, p) == Positions(matches[..last], p) + {last};
      } else {
        assert Positions(matches, p) == Positions(matches[..last], p);
      }
    }
  }

  /** The confidence figures: the share of words inside a match that is not for review, the share
      inside matches for review only, and how many matches are for review. */
  ghost predicate ReportsBands(starts: seq<nat>, matches: seq<Match>, confidentPct: int, reviewPct: int, reviewCount: nat) {
    var review := (m: Match) => m.band == Review;
    var confident := Inside(starts, matches, (m: Match) => m.band == Confident);
    && confidentPct == Percent(|confident|, |starts|)
    && reviewPct == Percent(|Inside(starts, matches, review) - confident|, |starts|)
    && reviewCount == |Positions(matches, review)|
  }

  lemma BreakdownReports(starts: seq<nat>, matches: seq<Match>)
    ensures var b := BreakdownOf(starts, matches);
            ReportsBands(starts, matches, b.confidentPct, b.reviewPct, b.reviewCount)
  {
    var review, confident := (m: Match) => m.band == Review, (m: Match) => m.band == Confident;
    WordsOfIsInside(starts, matches, IsConfident);
    WordsOfIsInside(starts, matches, IsReview);
    assert Inside(starts, matches, IsConfident) == Inside(starts, matches, confident);
    assert Inside(starts, matches, IsReview) == Inside(starts, matches, review);
    CountReviewMeaning(matches);
    assert Positions(matches, review) == Positions(matches, (m: Match) => m.band == Review);
  }

  lemma CountReviewStep(matches: seq<Match>, n: nat)
    requires n < |matches|
    ensures CountReview(matches[..n + 1]) == CountReview(matches[..n]) + (if IsReview(matches[n]) then 1 else 0)
  {
    assert matches[..n + 1][..n] == matches[..n];
  }

  lemma NothingCollected(starts: seq<nat>, matches: seq<Match>)
    ensures forall p :: WordsOf(starts, matches[..0], p) == {}
    ensures CountReview(matches[..0]) == 0
  {}

  method ConfidenceBreakdown(tokens: seq<Token>, matches: seq<Match>) returns (b: Breakdown)
    requires Ordered(tokens)
    ensures b == BreakdownOf(Starts(tokens), matches)
    ensures ReportsBands(Starts(tokens), matches, b.confidentPct, b.reviewPct, b.reviewCount)
  {
    hide WordsOf, WordsIn, CountReview, Starts, Ascending, Ordered, Split, ReportsBands;
    var starts := Starts(tokens);
    var confident: set<int>, review: set<int>, reviewCount := {}, {}, 0;
    NothingCollected(starts, matches);
    for n := 0 to |matches|
      invariant confident == WordsOf(starts, matches[..n], IsConfident)
      invariant review == WordsOf(starts, matches[..n], IsReview)
      invariant reviewCount == CountReview(matches[..n])
    {
      var m := matches[n];
      var idx := TokenRange(starts, m);
      WordsOfStep(starts, matches, n, IsConfident);
      WordsOfStep(starts, matches, n, IsReview);
      CountReviewStep(matches, n);
      if m.band == Review {
        review := review + idx;
        reviewCount := reviewCount + 1;
      } else {
        confident := confident + idx;
      }
    }
    assert matches[..|matches|] == matches;
    BreakdownReports(starts, matches);
    return Split(confident, review, reviewCount, |tokens|);
  }

  // ---------------------------------------------------------------- totals

  function SourceIds(matches: seq<Match>): set<string> {
    if matches == [] then {} else SourceIds(matches[..|matches| - 1]) + {matches[|matches| - 1].sourceId}
  }

  /** Verbatim takes precedence over translated, translated over paraphrase. */
  function Totals(verbatim: set<int>, paraphrase: set<int>, translated: set<int>, b: Breakdown,
                  total: nat, matchCount: nat, sourceCount: nat): Overall
  {
    var matched := verbatim + paraphrase + translated;
    Overall(Percent(|matched|, total), Percent(|verbatim|, total),
            Percent(|paraphrase - verbatim - translated|, total), Percent(|translated - verbatim|, total),
            b.confidentPct, b.reviewPct, b.reviewCount, |matched|, total, matchCount, sourceCount)
  }

  ghost function Summary(starts: seq<nat>, matches: seq<Match>): Overall {
    Totals(WordsOf(starts, matches, IsVerbatim), WordsOf(starts, matches, IsParaphrase),
           WordsOf(starts, matches, IsTranslated), BreakdownOf(starts, matches),
           |starts|, |matches|, |SourceIds(matches)|)
  }

  ghost function IdsOf(matches: seq<Match>): set<string> {
    set m | m in matches :: m.sourceId
  }

  lemma {:induction false} SourceIdsMeaning(matches: seq<Match>)
    ensures SourceIds(matches) == IdsOf(matches)
  {
    if matches != [] {
      var init, last := matches[..|matches| - 1], matches[|matches| - 1];
      assert matches == init + [last];
      SourceIdsMeaning(init);
      assert IdsOf(matches) == IdsOf(init) + {last.sourceId};
    }
  }

  /** What the totals say about the matches, word by word: inside a verbatim match; inside a
      translated one and no verbatim one; inside a paraphrase and neither of the others. */
  ghost predicate ReportsMatches(starts: seq<nat>, matches: seq<Match>, o: Overall) {
    var n := |starts|;
    var verbatim := Inside(starts, matches, (m: Match) => m.kind == Verbatim);
    var translated := Inside(starts, matches, (m: Match) => m.kind == Translated);
    var paraphrase := Inside(starts, matches, (m: Match) => m.kind == Paraphrase);
    && o.verbatimPct == Percent(|verbatim|, n)
    && o.translatedPct == Percent(|translated - verbatim|, n)
    && o.paraphrasePct == Percent(|paraphrase - verbatim - translated|, n)
    && o.matchedWords == |Inside(starts, matches, (m: Match) => true)|
    && o.similarityPct == Percent(o.matchedWords, n)
    && o.totalWords == n && o.matchCount == |matches| && o.sourceCount == |IdsOf(matches)|
    && ReportsBands(starts, matches, o.confidentPct, o.reviewPct, o.reviewCount)
  }

  lemma InsideByKind(starts: seq<nat>, matches: seq<Match>)
    ensures WordsOf(starts, matches, IsVerbatim) == Inside(starts, matches, (m: Match) => m.kind == Verbatim)
    ensures WordsOf(starts, matches, IsTranslated) == Inside(starts, matches, (m: Match) => m.kind == Translated)
    ensures WordsOf(starts, matches, IsParaphrase) == Inside(starts, matches, (m: Match) => m.kind == Paraphrase)
  {
    WordsOfIsInside(starts, matches, IsVerbatim);
    WordsOfIsInside(starts, matches, IsTranslated);
    WordsOfIsInside(starts, matches, IsParaphrase);
  }

  lemma InsideAny(starts: seq<nat>, matches: seq<Match>)
    ensures WordsOf(starts, matches, IsVerbatim) + WordsOf(starts, matches, IsParaphrase) + WordsOf(starts, matches, IsTranslated)
         == Inside(starts, matches, (m: Match) => true)
  {
    SplitByKind(starts, matches);
    WordsOfIsInside(starts, matches, Any);
  }

  lemma SummaryReports(starts: seq<nat>, matches: seq<Match>)
    ensures ReportsMatches(starts, matches, Summary(starts, matches))
  {
    InsideByKind(starts, matches);
    InsideAny(starts, matches);
    BreakdownReports(starts, matches);
    SourceIdsMeaning(matches);
    hide WordsOf, Inside, ReportsBands, BreakdownOf, IdsOf, SourceIds;
  }

  method Aggregate(tokens: seq<Token>, matches: seq<Match>) returns (o: Overall)
    requires Ordered(tokens)
    ensures o == Summary(Starts(tokens), matches)
    ensures ReportsMatches(Starts(tokens), matches, o)
  {
    hide WordsOf, WordsIn, Starts, Ascending, Ordered, BreakdownOf, Totals, ReportsMatches;
    var starts := Starts(tokens);
    var verbatim: set<int>, paraphrase: set<int>, translated: set<int> := {}, {}, {};
    NothingCollected(starts, matches);
    for n := 0 to |matches|
      invariant verbatim == WordsOf(starts, matches[..n], IsVerbatim)
      invariant paraphrase == WordsOf(starts, matches[..n], IsParaphrase)
      invariant translated == WordsOf(starts, matches[..n], IsTranslated)
    {
      var m := matches[n];
      var idx := TokenRange(starts, m);
      WordsOfStep(starts, matches, n, IsVerbatim);
      WordsOfStep(starts, matches, n, IsParaphrase);
      WordsOfStep(starts, matches, n, IsTranslated);
      match m.kind
      case Verbatim => verbatim := verbatim + idx;
      case Translated => translated := translated + idx;
      case Paraphrase => paraphrase := paraphrase + idx;
    }
    assert matches[..|matches|] == matches;
    var b := ConfidenceBreakdown(tokens, matches);
    SummaryReports(starts, matches);
    return Totals(verbatim, paraphrase, translated, b, |tokens|, |matches|, |SourceIds(matches)|);
  }

  // ---------------------------------------------------------------- conservation

  lemma SplitByKind(starts: seq<nat>, matches: seq<Match>)
    ensures WordsOf(starts, matches, IsVerbatim) + WordsOf(starts, matches, IsParaphrase) + WordsOf(starts, matches, IsTranslated)
         == WordsOf(starts, matches, Any)
  {
    if matches != [] {
      SplitByKind(starts, matches[..|matches| - 1]);
    }
  }

  lemma SplitByBand(starts: seq<nat>, matches: seq<Match>)
    ensures WordsOf(starts, matches, IsConfident) + WordsOf(starts, matches, IsReview) == WordsOf(starts, matches, Any)
  {
    if matches != [] {
      SplitByBand(starts, matches[..|matches| - 1]);
    }
  }

  /** The words the report attributes to each kind, each word to one kind only. */
  ghost function KindCounts(starts: seq<nat>, matches: seq<Match>): (nat, nat, nat) {
    var v := WordsOf(starts, matches, IsVerbatim);
    var p := WordsOf(starts, matches, IsParaphrase);
    var t := WordsOf(starts, matches, IsTranslated);
    (|v|, |p - v - t|, |t - v|)
  }

  /** The words it attributes to each confidence band, each word to one band only. */
  ghost function BandCounts(starts: seq<nat>, matches: seq<Match>): (nat, nat) {
    var c := WordsOf(starts, matches, IsConfident);
    (|c|, |WordsOf(starts, matches, IsReview) - c|)
  }

  /** Words beginning inside at least one match, of whatever kind and band. */
  ghost function MatchedWords(starts: seq<nat>, matches: seq<Match>): set<int> {
    set i | i in Interval(0, |starts|) && exists m :: m in matches && i in WordsIn(starts, m)
  }

  lemma AnyIsMatched(starts: seq<nat>, matches: seq<Match>)
    ensures WordsOf(starts, matches, Any) == MatchedWords(starts, matches)
  {
    forall i ensures i in WordsOf(starts, matches, Any) <==> i in MatchedWords(starts, matches) {
      WordsOfMeaning(starts, matches, Any, i);
    }
  }

  /** Two independent decompositions of the matched words, by kind and by confidence, both
      add up to the reported total: the number of words beginning inside some match. */
  lemma Conservation(starts: seq<nat>, matches: seq<Match>)
    ensures var matched := |MatchedWords(starts, matches)|;
            var k, b := KindCounts(starts, matches), BandCounts(starts, matches);
            && Summary(starts, matches).matchedWords == matched <= |starts|
            && k.0 + k.1 + k.2 == matched
            && b.0 + b.1 == matched
  {
    SplitByKind(starts, matches);
    SplitByBand(starts, matches);
    SplitInThree(WordsOf(starts, matches, IsVerbatim), WordsOf(starts, matches, IsParaphrase),
                 WordsOf(starts, matches, IsTranslated));
    SplitInTwo(WordsOf(starts, matches, IsConfident), WordsOf(starts, matches, IsReview));
    AnyIsMatched(starts, matches);
    SubsetSize(MatchedWords(starts, matches), Interval(0, |starts|));
  }

  /** `o` reports the counts `k` by kind and `b` by band out of `total` words. */
  ghost predicate Reports(o: Overall, k: (nat, nat, nat), b: (nat, nat), total: nat) {
    && o.verbatimPct == Percent(k.0, total)
    && o.paraphrasePct == Percent(k.1, total)
    && o.translatedPct == Percent(k.2, total)
    && o.confidentPct == Percent(b.0, total)
    && o.reviewPct == Percent(b.1, total)
    && o.similarityPct == Percent(o.matchedWords, total)
  }

  /** Rounded percentages are consistent: the three kinds sum to the similarity within 0.02,
      the two confidence bands within 0.01. */
  ghost predicate Consistent(o: Overall) {
    && -2 <= o.verbatimPct + o.paraphrasePct + o.translatedPct - o.similarityPct <= 2
    && -1 <= o.confidentPct + o.reviewPct - o.similarityPct <= 1
  }

  lemma ReportIsConsistent(o: Overall, k: (nat, nat, nat), b: (nat, nat), total: nat)
    requires Reports(o, k, b, total)
    requires k.0 + k.1 + k.2 == o.matchedWords == b.0 + b.1
    ensures Consistent(o)
  {
    ThreePartsDrift(k.0, k.1, k.2, total);
    TwoPartsDrift(b.0, b.1, total);
  }

  /** Every report the aggregation produces is consistent. */
  lemma PercentagesAgree(starts: seq<nat>, matches: seq<Match>)
    ensures Consistent(Summary(starts, matches))
  {
    var o, k, b := Summary(starts, matches), KindCounts(starts, matches), BandCounts(starts, matches);
    assert Reports(o, k, b, |starts|);
    Conservation(starts, matches);
    ReportIsConsistent(o, k, b, |starts|);
  }
}
