/** The optional rerank stage: a second model re-decides the confidence of the borderline
    matches in place, and the report's confidence figures are recomputed afterwards. */
module Rerank {
  import opened Aggregation
  import opened Matches
  import opened Rounding
  import opened Sorting
  import opened Tokenizer

  datatype Config = Config(enabled: bool, lo: real, hi: real, maxPairs: nat, confidentThreshold: real)

  predicate NonBlank(text: string, isSpace: char -> bool) {
    exists i :: 0 <= i < |text| && !isSpace(text[i])
  }

  /** Borderline semantic matches with text on both sides. */
  predicate IsCandidate(c: Config, isSpace: char -> bool, m: Match) {
    && m.kind != Verbatim
    && c.lo <= m.similarity <= c.hi
    && NonBlank(m.docExcerpt, isSpace)
    && NonBlank(m.sourceExcerpt, isSpace)
  }

  function CandidateIndices(c: Config, isSpace: char -> bool, ms: seq<Match>, n: nat): (r: seq<nat>)
    requires n <= |ms|
    ensures forall i :: i in r <==> 0 <= i < n && IsCandidate(c, isSpace, ms[i])
    ensures Distinct(r)
  {
    if n == 0 then []
    else CandidateIndices(c, isSpace, ms, n - 1) + (if IsCandidate(c, isSpace, ms[n - 1]) then [n - 1] else [])
  }

  function SimilarityAt(ms: seq<Match>, i: nat): real {
    if i < |ms| then ms[i].similarity else 0.0
  }

  function Strongest(ms: seq<Match>): (nat, nat) -> bool {
    (i: nat, j: nat) => SimilarityAt(ms, i) >= SimilarityAt(ms, j)
  }

  ghost predicate InBounds(indices: seq<nat>, n: nat) {
    forall x :: 0 <= x < |indices| ==> indices[x] < n
  }

  /** The matches to rerank: all candidates, strongest first, cut to the budget. */
  function Chosen(c: Config, isSpace: char -> bool, ms: seq<Match>): (r: seq<nat>)
    ensures InBounds(r, |ms|)
    ensures |r| <= c.maxPairs
  {
    var r := TopK(CandidateIndices(c, isSpace, ms, |ms|), Strongest(ms), c.maxPairs);
    assert forall x :: 0 <= x < |r| ==> r[x] in r;
    r
  }

  /** A paraphrase or translation of borderline similarity with text on both sides. */
  ghost predicate Borderline(c: Config, isSpace: char -> bool, m: Match) {
    && (m.kind == Paraphrase || m.kind == Translated)
    && c.lo <= m.similarity && m.similarity <= c.hi
    && (exists x :: 0 <= x < |m.docExcerpt| && !isSpace(m.docExcerpt[x]))
    && (exists x :: 0 <= x < |m.sourceExcerpt| && !isSpace(m.sourceExcerpt[x]))
  }

  /** Match `i` is reranked before match `j`: more similar, or as similar and listed earlier. */
  ghost predicate Stronger(ms: seq<Match>, i: nat, j: nat)
    requires i < |ms| && j < |ms|
  {
    ms[i].similarity > ms[j].similarity || (ms[i].similarity == ms[j].similarity && i < j)
  }

  /** Only borderline matches are chosen, each once and strongest first, and each of those left
      out for lack of budget is weaker than all chosen ones. */
  lemma ChosenAreStrongest(c: Config, isSpace: char -> bool, ms: seq<Match>)
    ensures var chosen := Chosen(c, isSpace, ms);
            && Distinct(chosen)
            && (forall i :: i in chosen ==> Borderline(c, isSpace, ms[i]))
            && (forall x, y :: 0 <= x < y < |chosen| ==> Stronger(ms, chosen[x], chosen[y]))
            && (forall j :: 0 <= j < |ms| && Borderline(c, isSpace, ms[j]) && j !in chosen ==>
                  |chosen| == c.maxPairs && forall i :: i in chosen ==> Stronger(ms, i, j))
  {
    var cand, chosen := CandidateIndices(c, isSpace, ms, |ms|), Chosen(c, isSpace, ms);
    assert TotalPreorder(Strongest(ms));
    assert forall i :: 0 <= i < |ms| ==> (IsCandidate(c, isSpace, ms[i]) <==> Borderline(c, isSpace, ms[i]));
    TopKMeaning(cand, Strongest(ms), c.maxPairs);
    hide Outranks, Stronger, Borderline, IsCandidate;
    forall x, y | 0 <= x < y < |chosen| ensures Stronger(ms, chosen[x], chosen[y]) {
      assert chosen[x] in chosen && chosen[y] in chosen;
      OutranksByIndex(c, isSpace, ms, chosen[x], chosen[y]);
    }
    forall i, j | i in chosen && j in cand && j !in chosen ensures Stronger(ms, i, j) {
      OutranksByIndex(c, isSpace, ms, i, j);
    }
  }

  lemma OutranksByIndex(c: Config, isSpace: char -> bool, ms: seq<Match>, i: nat, j: nat)
    requires i < |ms| && j < |ms|
    requires Outranks(CandidateIndices(c, isSpace, ms, |ms|), Strongest(ms), i, j)
    ensures Stronger(ms, i, j)
  {
    CandidatesAscend(c, isSpace, ms, |ms|);
    if Before(CandidateIndices(c, isSpace, ms, |ms|), i, j) {
      BeforeIsLess(CandidateIndices(c, isSpace, ms, |ms|), i, j);
    }
  }

  lemma {:induction false} CandidatesAscend(c: Config, isSpace: char -> bool, ms: seq<Match>, n: nat)
    requires n <= |ms|
    ensures Increasing(CandidateIndices(c, isSpace, ms, n))
  {
    if n > 0 {
      CandidatesAscend(c, isSpace, ms, n - 1);
      IncreasingAppend(CandidateIndices(c, isSpace, ms, n - 1), n - 1);
    }
  }

  function Clamp(x: real): real {
    if x < 0.0 then 0.0 else if x > 1.0 then 1.0 else x
  }

  /** The cutoff the matcher applied, or the configured one when none was recorded. */
  function Cutoff(used: Option<real>, configured: real): real {
    if used.Some? && used.value != 0.0 then used.value else configured
  }

  function Rescore(m: Match, raw: real, cutoff: real): Match {
    var score := Clamp(raw);
    m.(rerankScore := Some(Round4(score)), band := if score >= cutoff then Confident else Review)
  }

  /** The matches after the first `n` chosen ones were rescored. */
  function Rescored(ms: seq<Match>, chosen: seq<nat>, raw: seq<real>, cutoff: real, n: nat): (r: seq<Match>)
    requires n <= |chosen| && n <= |raw|
    requires InBounds(chosen, |ms|)
    ensures |r| == |ms|
  {
    if n == 0 then ms
    else
      var prev := Rescored(ms, chosen, raw, cutoff, n - 1);
      prev[chosen[n - 1] := Rescore(prev[chosen[n - 1]], raw[n - 1], cutoff)]
  }

  function Pairs(chosen: seq<nat>, raw: seq<real>): nat {
    if |chosen| <= |raw| then |chosen| else |raw|
  }

  /** What a score does to a match: it is for review unless the score, cut to between 0 and 1, is
      at least the cutoff, and it carries that score to four decimals; nothing else changes. */
  ghost predicate Earns(m: Match, raw: real, cutoff: real, n: Match) {
    var score := if raw <= 0.0 then 0.0 else if raw >= 1.0 then 1.0 else raw;
    && n == m.(band := n.band, rerankScore := n.rerankScore)
    && (n.band == Confident <==> score >= cutoff)
    && n.rerankScore.Some? && -0.00005 <= n.rerankScore.value - score <= 0.00005
  }

  lemma RescoreEarns(m: Match, raw: real, cutoff: real)
    ensures Earns(m, raw, cutoff, Rescore(m, raw, cutoff))
  {
    Round4Error(Clamp(raw));
  }

  /** Each chosen match with a score gets what that score earns; every other is untouched. */
  lemma RescoredMeaning(ms: seq<Match>, chosen: seq<nat>, raw: seq<real>, cutoff: real, n: nat)
    requires n <= |chosen| && n <= |raw|
    requires Distinct(chosen) && InBounds(chosen, |ms|)
    ensures var r := Rescored(ms, chosen, raw, cutoff, n);
            && (forall x :: 0 <= x < n ==> chosen[x] < |ms| && Earns(ms[chosen[x]], raw[x], cutoff, r[chosen[x]]))
            && (forall i :: 0 <= i < |ms| && i !in chosen[..n] ==> r[i] == ms[i])
  {
    RescoredEach(ms, chosen, raw, cutoff, n);
    hide Rescore, Rescored, Earns, Distinct;
    forall x | 0 <= x < n
      ensures chosen[x] < |ms| && Earns(ms[chosen[x]], raw[x], cutoff, Rescored(ms, chosen, raw, cutoff, n)[chosen[x]])
    {
      RescoreEarns(ms[chosen[x]], raw[x], cutoff);
    }
  }

  lemma {:induction false} RescoredEach(ms: seq<Match>, chosen: seq<nat>, raw: seq<real>, cutoff: real, n: nat)
    requires n <= |chosen| && n <= |raw|
    requires Distinct(chosen) && InBounds(chosen, |ms|)
    ensures var r := Rescored(ms, chosen, raw, cutoff, n);
            && (forall x :: 0 <= x < n ==> chosen[x] < |ms| && r[chosen[x]] == Rescore(ms[chosen[x]], raw[x], cutoff))
            && (forall i :: 0 <= i < |ms| && i !in chosen[..n] ==> r[i] == ms[i])
    decreases n
  {
    hide Rescore;
    if n > 0 {
      RescoredEach(ms, chosen, raw, cutoff, n - 1);
      assert chosen[..n] == chosen[..n - 1] + [chosen[n - 1]];
      var i := chosen[n - 1];
      assert i !in chosen[..n - 1];
      var prev := Rescored(ms, chosen, raw, cutoff, n - 1);
      assert Rescored(ms, chosen, raw, cutoff, n) == prev[i := Rescore(ms[i], raw[n - 1], cutoff)];
      forall x | 0 <= x < n - 1 ensures chosen[x] != i {
        assert chosen[..n - 1][x] == chosen[x];
      }
    }
  }

  /** Equal up to what reranking may change. */
  ghost predicate SamePassage(m: Match, n: Match) {
    m.(band := n.band, rerankScore := n.rerankScore) == n
  }

  lemma {:induction false} RescoredSamePassages(ms: seq<Match>, chosen: seq<nat>, raw: seq<real>, cutoff: real, n: nat)
    requires n <= |chosen| && n <= |raw|
    requires InBounds(chosen, |ms|)
    ensures var r := Rescored(ms, chosen, raw, cutoff, n);
            forall i :: 0 <= i < |ms| ==> SamePassage(ms[i], r[i])
  {
    if n > 0 {
      RescoredSamePassages(ms, chosen, raw, cutoff, n - 1);
    }
  }

  lemma {:induction false} WordsOfSamePassages(starts: seq<nat>, ms: seq<Match>, ns: seq<Match>, p: Match -> bool)
    requires |ms| == |ns|
    requires forall i :: 0 <= i < |ms| ==> SamePassage(ms[i], ns[i]) && p(ms[i]) == p(ns[i])
    ensures WordsOf(starts, ms, p) == WordsOf(starts, ns, p)
  {
    if ms != [] {
      var last := |ms| - 1;
      WordsOfSamePassages(starts, ms[..last], ns[..last], p);
      assert SamePassage(ms[last], ns[last]);
      assert WordsIn(starts, ms[last]) == WordsIn(starts, ns[last]);
    }
  }

  lemma {:induction false} SourceIdsSamePassages(ms: seq<Match>, ns: seq<Match>)
    requires |ms| == |ns|
    requires forall i :: 0 <= i < |ms| ==> SamePassage(ms[i], ns[i])
    ensures SourceIds(ms) == SourceIds(ns)
  {
    if ms != [] {
      var last := |ms| - 1;
      SourceIdsSamePassages(ms[..last], ns[..last]);
      assert SamePassage(ms[last], ns[last]);
    }
  }

  function WithBreakdown(o: Overall, b: Breakdown): Overall {
    o.(confidentPct := b.confidentPct, reviewPct := b.reviewPct, reviewCount := b.reviewCount)
  }

  /** Re-deciding bands changes nothing in the report except the confidence figures, so
      recomputing those gives the very report a fresh aggregation would give. */
  lemma BandsOnlyMoveTheBreakdown(starts: seq<nat>, ms: seq<Match>, ns: seq<Match>)
    requires |ms| == |ns|
    requires forall i :: 0 <= i < |ms| ==> SamePassage(ms[i], ns[i])
    ensures Summary(starts, ns) == WithBreakdown(Summary(starts, ms), BreakdownOf(starts, ns))
  {
    forall i | 0 <= i < |ms| ensures ms[i].kind == ns[i].kind {
      assert SamePassage(ms[i], ns[i]);
    }
    WordsOfSamePassages(starts, ms, ns, IsVerbatim);
    WordsOfSamePassages(starts, ms, ns, IsParaphrase);
    WordsOfSamePassages(starts, ms, ns, IsTranslated);
    SourceIdsSamePassages(ms, ns);
  }

  /** The matches after the stage: unchanged when it is off, has nothing to do or has no model. */
  function AfterRerank(c: Config, isSpace: char -> bool, ms: seq<Match>, scores: seq<nat> -> Option<seq<real>>,
                       cutoffUsed: Option<real>): (r: seq<Match>)
    ensures |r| == |ms|
  {
    var chosen := Chosen(c, isSpace, ms);
    if !c.enabled || chosen == [] || scores(chosen).None? then
      ms
    else
      var raw := scores(chosen).value;
      Rescored(ms, chosen, raw, Cutoff(cutoffUsed, c.confidentThreshold), Pairs(chosen, raw))
  }

  /** The stage. `scores` gives the second model's answer for the chosen pairs, or nothing
      when it is unavailable. A report that agreed with the matches before still does. */
  method Run(c: Config, isSpace: char -> bool, matches: array<Match>, scores: seq<nat> -> Option<seq<real>>,
             cutoffUsed: Option<real>, tokens: seq<Token>, overall: Overall)
    returns (updated: Overall)
    requires Ordered(tokens)
    modifies matches
    ensures matches[..] == AfterRerank(c, isSpace, old(matches[..]), scores, cutoffUsed)
    ensures overall == Summary(Starts(tokens), old(matches[..])) ==> updated == Summary(Starts(tokens), matches[..])
    ensures var chosen := Chosen(c, isSpace, old(matches[..]));
            if !c.enabled || chosen == [] || scores(chosen).None? then
              matches[..] == old(matches[..]) && updated == overall
            else
              && Reranked(old(matches[..]), chosen, scores(chosen).value,
                          if cutoffUsed.Some? && cutoffUsed.value != 0.0 then cutoffUsed.value else c.confidentThreshold,
                          matches[..])
              && updated == overall.(confidentPct := updated.confidentPct, reviewPct := updated.reviewPct,
                                     reviewCount := updated.reviewCount)
              && ReportsBands(Starts(tokens), matches[..], updated.confidentPct, updated.reviewPct, updated.reviewCount)
  {
    hide ReportsBands, Starts, Ordered, Summary, BreakdownOf, Reranked, Rescored;
    updated := overall;
    if !c.enabled {
      return;
    }
    ghost var ms := matches[..];
    var chosen := Chosen(c, isSpace, matches[..]);
    if chosen == [] {
      return;
    }
    var answer := scores(chosen);
    if answer.None? {
      return;
    }
    var cutoff := Cutoff(cutoffUsed, c.confidentThreshold);
    Rewrite(matches, chosen, answer.value, cutoff);
    ChosenAreStrongest(c, isSpace, ms);
    RescoredIsReranked(ms, chosen, answer.value, cutoff);
    var b := ConfidenceBreakdown(tokens, matches[..]);
    updated := WithBreakdown(overall, b);
    RescoredSamePassages(ms, chosen, answer.value, cutoff, Pairs(chosen, answer.value));
    BandsOnlyMoveTheBreakdown(Starts(tokens), ms, matches[..]);
  }

  /** `after` is `before` with every chosen match that has a score given what it earns. */
  ghost predicate Reranked(before: seq<Match>, chosen: seq<nat>, raw: seq<real>, cutoff: real, after: seq<Match>) {
    && |after| == |before|
    && (forall x :: 0 <= x < |chosen| && x < |raw| ==>
          chosen[x] < |before| && Earns(before[chosen[x]], raw[x], cutoff, after[chosen[x]]))
    && (forall i :: 0 <= i < |before| && (forall x :: 0 <= x < |chosen| && x < |raw| ==> chosen[x] != i) ==>
          after[i] == before[i])
  }

  lemma RescoredIsReranked(ms: seq<Match>, chosen: seq<nat>, raw: seq<real>, cutoff: real)
    requires Distinct(chosen) && InBounds(chosen, |ms|)
    ensures Reranked(ms, chosen, raw, cutoff, Rescored(ms, chosen, raw, cutoff, Pairs(chosen, raw)))
  {
    var n := Pairs(chosen, raw);
    RescoredMeaning(ms, chosen, raw, cutoff, n);
    hide Rescored, Earns, Distinct;
    forall i | 0 <= i < |ms| && (forall x :: 0 <= x < |chosen| && x < |raw| ==> chosen[x] != i)
      ensures i !in chosen[..n]
    {}
  }

  /** The loop over chosen matches and scores. */
  method Rewrite(matches: array<Match>, chosen: seq<nat>, raw: seq<real>, cutoff: real)
    requires InBounds(chosen, matches.Length)
    modifies matches
    ensures matches[..] == Rescored(old(matches[..]), chosen, raw, cutoff, Pairs(chosen, raw))
  {
    ghost var ms := matches[..];
    var n := 0;
    while n < |chosen| && n < |raw|
      invariant 0 <= n <= Pairs(chosen, raw)
      invariant matches[..] == Rescored(ms, chosen, raw, cutoff, n)
      decreases |chosen| - n
    {
      var i := chosen[n];
      matches[i] := Rescore(matches[i], raw[n], cutoff);
      n := n + 1;
    }
  }
}
