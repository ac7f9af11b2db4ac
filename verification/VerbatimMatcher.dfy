/** The verbatim matcher as it runs: a k-gram index over all sources, greedy extension
    of every candidate, and a cursor that jumps over what it has reported. */
module VerbatimMatcher {
  import opened Tokenizer
  import opened Matches
  import opened VerbatimSpec

  datatype Source = Source(id: string, text: string, tokens: seq<Token>)

  datatype Config = Config(ngram: nat, minWords: nat)

  ghost predicate ValidConfig(c: Config) {
    1 <= c.ngram <= c.minWords
  }

  /** The constructor's checks: a seed length below one is refused, and the minimum run
      is never shorter than the seed. */
  function Configure(ngram: int, minVerbatimWords: int): (c: Option<Config>)
    ensures c.None? <==> ngram < 1
    ensures c.Some? ==> ValidConfig(c.value)
    ensures c.Some? ==> c.value.ngram == ngram
    ensures c.Some? ==> c.value.minWords == if ngram <= minVerbatimWords then minVerbatimWords else ngram
  {
    if ngram < 1 then None
    else Some(Config(ngram, if minVerbatimWords > ngram then minVerbatimWords else ngram))
  }

  function SourceWords(sources: seq<Source>): (srcs: seq<Words>)
    ensures |srcs| == |sources|
  {
    seq(|sources|, s requires 0 <= s < |sources| => Norms(sources[s].tokens))
  }

  // ---------------------------------------------------------------- the index

  type Index = map<Words, seq<Place>>

  function Lookup(index: Index, gram: Words): seq<Place> {
    if gram in index then index[gram] else []
  }

  function GramCount(src: Words, k: nat): nat {
    if |src| >= k then |src| - k + 1 else 0
  }

  /** `index.setdefault(key, []).append(p)` */
  function Append(index: Index, key: Words, p: Place): Index {
    index[key := Lookup(index, key) + [p]]
  }

  ghost predicate GramAt(srcs: seq<Words>, gram: Words, p: Place) {
    && p.source < |srcs|
    && p.pos + |gram| <= |srcs[p.source]|
    && srcs[p.source][p.pos..p.pos + |gram|] == gram
  }

  /** `places` lists, in search order, exactly the places before `(s, upto)` holding `gram`. */
  ghost predicate ListsUpto(srcs: seq<Words>, gram: Words, s: nat, upto: nat, places: seq<Place>) {
    && (forall x, y :: 0 <= x < y < |places| ==> Before(places[x], places[y]))
    && (forall p :: p in places <==> GramAt(srcs, gram, p) && Before(p, Place(s, upto)))
  }

  /** The index after sources before `s` and the first `upto` seeds of source `s`. */
  ghost function IndexUpto(srcs: seq<Words>, k: nat, s: nat, upto: nat): Index
    requires s <= |srcs|
    requires s < |srcs| ==> upto <= GramCount(srcs[s], k)
    requires s == |srcs| ==> upto == 0
    decreases s, upto
  {
    if upto > 0 then
      Append(IndexUpto(srcs, k, s, upto - 1), srcs[s][upto - 1..upto - 1 + k], Place(s, upto - 1))
    else if s > 0 then
      IndexUpto(srcs, k, s - 1, GramCount(srcs[s - 1], k))
    else
      map[]
  }

  /** What lies before a position lies before the one before it, or is that one. */
  lemma BeforeNext(p: Place, s: nat, upto: nat)
    ensures Before(p, Place(s, upto + 1)) <==> Before(p, Place(s, upto)) || p == Place(s, upto)
  {}

  lemma AppendLookup(index: Index, key: Words, p: Place, gram: Words)
    ensures Lookup(Append(index, key, p), gram) == Lookup(index, gram) + (if key == gram then [p] else [])
  {}

  lemma ListsNext(srcs: seq<Words>, gram: Words, s: nat, upto: nat, places: seq<Place>)
    requires s < |srcs| && upto + |gram| <= |srcs[s]|
    requires ListsUpto(srcs, gram, s, upto, places)
    ensures ListsUpto(srcs, gram, s, upto + 1, places + (if srcs[s][upto..upto + |gram|] == gram then [Place(s, upto)] else []))
  {
    var last := Place(s, upto);
    var more := if srcs[s][upto..upto + |gram|] == gram then [last] else [];
    hide Before, GramAt;
    forall p ensures p in places + more <==> GramAt(srcs, gram, p) && Before(p, Place(s, upto + 1)) {
      BeforeNext(p, s, upto);
      LastGram(srcs, gram, s, upto);
    }
    forall x, y | 0 <= x < y < |places + more| ensures Before((places + more)[x], (places + more)[y]) {
      if y == |places| {
        assert places[x] in places;
      }
    }
  }

  lemma LastGram(srcs: seq<Words>, gram: Words, s: nat, upto: nat)
    requires s < |srcs| && upto + |gram| <= |srcs[s]|
    ensures GramAt(srcs, gram, Place(s, upto)) <==> srcs[s][upto..upto + |gram|] == gram
  {}

  /** All positions of a source lie before the next source. */
  lemma ListsSource(srcs: seq<Words>, gram: Words, s: nat, places: seq<Place>)
    requires s < |srcs| && ListsUpto(srcs, gram, s, GramCount(srcs[s], |gram|), places)
    ensures ListsUpto(srcs, gram, s + 1, 0, places)
  {
    forall p ensures p in places <==> GramAt(srcs, gram, p) && Before(p, Place(s + 1, 0)) {
      assert GramAt(srcs, gram, p) ==> (Before(p, Place(s + 1, 0)) <==> Before(p, Place(s, GramCount(srcs[s], |gram|))));
    }
  }

  /** The index is complete: a seed is listed under every place it occurs at and no other,
      in source order, then position order. */
  lemma {:induction false} IndexIsComplete(srcs: seq<Words>, k: nat, gram: Words, s: nat, upto: nat)
    requires |gram| == k
    requires s <= |srcs|
    requires s < |srcs| ==> upto <= GramCount(srcs[s], k)
    requires s == |srcs| ==> upto == 0
    ensures ListsUpto(srcs, gram, s, upto, Lookup(IndexUpto(srcs, k, s, upto), gram))
    decreases s, upto
  {
    if upto > 0 {
      IndexIsComplete(srcs, k, gram, s, upto - 1);
      var index := IndexUpto(srcs, k, s, upto - 1);
      ListsNext(srcs, gram, s, upto - 1, Lookup(index, gram));
      AppendLookup(index, srcs[s][upto - 1..upto - 1 + k], Place(s, upto - 1), gram);
      hide ListsUpto, Lookup, Append;
    } else if s > 0 {
      IndexIsComplete(srcs, k, gram, s - 1, GramCount(srcs[s - 1], k));
      ListsSource(srcs, gram, s - 1, Lookup(IndexUpto(srcs, k, s - 1, GramCount(srcs[s - 1], k)), gram));
    }
  }

  method BuildIndex(srcs: seq<Words>, k: nat) returns (index: Index)
    ensures index == IndexUpto(srcs, k, |srcs|, 0)
  {
    index := map[];
    var s := 0;
    while s < |srcs|
      invariant 0 <= s <= |srcs|
      invariant index == IndexUpto(srcs, k, s, 0)
    {
      var norms := srcs[s];
      var i := 0;
      while i < |norms| - k + 1
        invariant 0 <= i <= GramCount(norms, k)
        invariant index == IndexUpto(srcs, k, s, i)
      {
        index := Append(index, norms[i..i + k], Place(s, i));
        i := i + 1;
      }
      s := s + 1;
    }
  }

  // ---------------------------------------------------------------- one document position

  /** The inner `while`: extend a seed match as far as both sides agree. */
  method Extend(doc: Words, di: nat, src: Words, si: nat, k: nat) returns (length: nat)
    requires di + k <= |doc| && si + k <= |src|
    requires doc[di..di + k] == src[si..si + k]
    ensures length == CommonRun(doc, di, src, si)
    ensures length >= k
  {
    length := k;
    while di + length < |doc| && si + length < |src| && doc[di + length] == src[si + length]
      invariant k <= length && di + length <= |doc| && si + length <= |src|
      invariant doc[di..di + length] == src[si..si + length]
      decreases |doc| - length
    {
      assert doc[di..di + length + 1] == doc[di..di + length] + [doc[di + length]];
      assert src[si..si + length + 1] == src[si..si + length] + [src[si + length]];
      length := length + 1;
    }
    CommonRunAtLeast(doc, di, src, si, length);
    if di + length < |doc| && si + length < |src| {
      assert doc[di..di + length + 1][length] != src[si..si + length + 1][length];
      CommonRunAtLeast(doc, di, src, si, length + 1);
    } else {
      CommonRunIsMaximal(doc, di, src, si);
    }
  }

  /** `places` are, in search order, exactly the places where `k` words agree with `doc[di..]`. */
  ghost predicate Candidates(doc: Words, di: nat, srcs: seq<Words>, k: nat, places: seq<Place>)
    requires di + k <= |doc|
  {
    ListsUpto(srcs, doc[di..di + k], |srcs|, 0, places)
  }

  lemma CandidateRuns(doc: Words, di: nat, srcs: seq<Words>, k: nat, places: seq<Place>, p: Place)
    requires k >= 1 && di + k <= |doc|
    requires Candidates(doc, di, srcs, k, places)
    ensures p in places <==> InSources(srcs, p) && RunAt(doc, di, srcs, p) >= k
  {
    if p.source < |srcs| {
      var src := srcs[p.source];
      if p.pos + k <= |src| {
        CommonRunAtLeast(doc, di, src, p.pos, k);
      } else if p.pos < |src| {
        CommonRunIsMaximal(doc, di, src, p.pos);
      }
    }
  }

  /** The candidate loop of one document position. */
  method BestCandidate(doc: Words, di: nat, srcs: seq<Words>, k: nat, candidates: seq<Place>) returns (best: Run)
    requires k >= 1 && di + k <= |doc|
    requires Candidates(doc, di, srcs, k, candidates)
    ensures candidates == [] ==> Best(doc, di, srcs).words < k
    ensures candidates != [] ==> best == Best(doc, di, srcs) && best.words >= k
  {
    best := Run(0, Place(0, 0));
    ghost var at := 0;
    var c := 0;
    while c < |candidates|
      invariant 0 <= c <= |candidates|
      invariant c > 0 ==> 0 <= at < c && best.place == candidates[at] && best.words >= k
      invariant c > 0 ==> best.words == RunAt(doc, di, srcs, best.place)
      invariant c == 0 ==> best.words == 0
      invariant forall x :: 0 <= x < c ==> RunAt(doc, di, srcs, candidates[x]) <= best.words
      invariant c > 0 ==> forall x :: 0 <= x < at ==> RunAt(doc, di, srcs, candidates[x]) < best.words
    {
      var p := candidates[c];
      assert p in candidates;
      assert GramAt(srcs, doc[di..di + k], p);
      var length := Extend(doc, di, srcs[p.source], p.pos, k);
      if length > best.words {
        best := Run(length, p);
        at := c;
      }
      c := c + 1;
    }
    BestIsFirstLongest(doc, di, srcs);
    if candidates == [] {
      var naive := Best(doc, di, srcs);
      CandidateRuns(doc, di, srcs, k, candidates, naive.place);
    } else {
      forall p | InSources(srcs, p)
        ensures RunAt(doc, di, srcs, p) <= best.words
        ensures Before(p, best.place) ==> RunAt(doc, di, srcs, p) < best.words
      {
        CandidateRuns(doc, di, srcs, k, candidates, p);
        if p in candidates {
          var x :| 0 <= x < |candidates| && candidates[x] == p;
          assert x > at ==> Before(best.place, p);
        }
      }
      CandidateRuns(doc, di, srcs, k, candidates, best.place);
      FirstLongestIsBest(doc, di, srcs, best);
    }
  }

  // ---------------------------------------------------------------- the scan

  /** The character spans of a hit, read off the first and last token on each side. */
  function Render(docTokens: seq<Token>, sources: seq<Source>, h: Hit): Match
    requires h.words >= 1 && h.at + h.words <= |docTokens|
    requires h.place.source < |sources|
    requires h.place.pos + h.words <= |sources[h.place.source].tokens|
  {
    var src := sources[h.place.source];
    var start, end := src.tokens[h.place.pos].start, src.tokens[h.place.pos + h.words - 1].end;
    Match(Verbatim, 1.0, Confident, h.words,
          docTokens[h.at].start, docTokens[h.at + h.words - 1].end,
          src.id, start, end, Slice(src.text, start, end))
  }

  ghost predicate Fits(docTokens: seq<Token>, sources: seq<Source>, h: Hit) {
    && h.words >= 1 && h.at + h.words <= |docTokens|
    && h.place.source < |sources|
    && h.place.pos + h.words <= |sources[h.place.source].tokens|
  }

  /** `matches` are the renderings of `hits`, one for one. */
  ghost predicate Renders(docTokens: seq<Token>, sources: seq<Source>, hits: seq<Hit>, matches: seq<Match>) {
    && |matches| == |hits|
    && forall i :: 0 <= i < |hits| ==>
         Fits(docTokens, sources, hits[i]) && matches[i] == Render(docTokens, sources, hits[i])
  }

  /** Refinement: the index-driven scan reports exactly what the naive scan reports, whatever
      seed length the index uses. */
  method VerbatimMatches(c: Config, docTokens: seq<Token>, sources: seq<Source>) returns (matches: seq<Match>)
    requires ValidConfig(c)
    ensures Renders(docTokens, sources, NaiveScan(Norms(docTokens), SourceWords(sources), c.minWords, 0), matches)
  {
    var doc, srcs, k := Norms(docTokens), SourceWords(sources), c.ngram;
    var index := BuildIndex(srcs, k);
    matches := [];
    ghost var hits: seq<Hit> := [];
    var di := 0;
    while di <= |doc| - k
      invariant 0 <= di <= |doc|
      invariant hits + NaiveScan(doc, srcs, c.minWords, di) == NaiveScan(doc, srcs, c.minWords, 0)
      invariant Renders(docTokens, sources, hits, matches)
      decreases |doc| - di
    {
      var candidates := Lookup(index, doc[di..di + k]);
      IndexIsComplete(srcs, k, doc[di..di + k], |srcs|, 0);
      var best := BestCandidate(doc, di, srcs, k, candidates);
      if candidates == [] {
        di := di + 1;
      } else if best.words >= c.minWords {
        BestFits(doc, di, srcs);
        var h := Hit(di, best.words, best.place);
        matches := matches + [Render(docTokens, sources, h)];
        hits := hits + [h];
        di := di + best.words;
      } else {
        di := di + 1;
      }
    }
    TailIsTooShort(doc, srcs, c.minWords, di);
    assert hits == NaiveScan(doc, srcs, c.minWords, 0);
  }

  // ---------------------------------------------------------------- what a match says

  /** The sources carry the tokens of their texts. */
  ghost predicate Tokenized(a: Alphabet, sources: seq<Source>) {
    forall s :: s in sources ==> s.tokens == Tokenize(a, s.text)
  }

  /** `m` cuts its excerpt out of `s`, and that excerpt has the same words as the passage of
      `text` it points at. */
  ghost predicate CopiesFrom(a: Alphabet, text: string, s: Source, m: Match) {
    && m.sourceId == s.id
    && m.sourceStart < m.sourceEnd <= |s.text|
    && m.sourceExcerpt == s.text[m.sourceStart..m.sourceEnd]
    && m.docStart < m.docEnd <= |text|
    && Norms(Tokenize(a, m.sourceExcerpt)) == Norms(Tokenize(a, text[m.docStart..m.docEnd]))
    && |Tokenize(a, m.sourceExcerpt)| == m.words
  }

  /** Every reported match is a confident verbatim one of at least the minimum length: the
      source stretch it cites reads, word for word, like the passage of the document. */
  lemma MatchIsCopy(a: Alphabet, text: string, minWords: nat, sources: seq<Source>, matches: seq<Match>, i: nat)
    requires minWords >= 1 && Tokenized(a, sources) && i < |matches|
    requires Renders(Tokenize(a, text), sources, NaiveScan(Norms(Tokenize(a, text)), SourceWords(sources), minWords, 0), matches)
    ensures var m := matches[i];
            && m.kind == Verbatim && m.band == Confident && m.similarity == 1.0 && m.words >= minWords
            && exists s :: s in sources && CopiesFrom(a, text, s, m)
  {
    var docTokens := Tokenize(a, text);
    var h := NaiveScan(Norms(docTokens), SourceWords(sources), minWords, 0)[i];
    HitIsGood(Norms(docTokens), SourceWords(sources), minWords, 0, h);
    hide NaiveScan, Tokenize, CopiesFrom, IsFirstLongest;
    assert sources[h.place.source] in sources;
    RenderedIsCopy(a, text, sources, h);
  }

  lemma RenderedIsCopy(a: Alphabet, text: string, sources: seq<Source>, h: Hit)
    requires Tokenized(a, sources) && Fits(Tokenize(a, text), sources, h)
    requires Norms(Tokenize(a, text))[h.at..h.at + h.words]
          == SourceWords(sources)[h.place.source][h.place.pos..h.place.pos + h.words]
    ensures CopiesFrom(a, text, sources[h.place.source], Render(Tokenize(a, text), sources, h))
  {
    hide Tokenize;
    var s := sources[h.place.source];
    assert s in sources;
    StretchTokens(a, text, h.at, h.words);
    StretchTokens(a, s.text, h.place.pos, h.words);
    assert SourceWords(sources)[h.place.source] == Norms(s.tokens);
  }

  // ---------------------------------------------------------------- character spans

  /** The reported character spans are increasing and disjoint on the document side, and
      every flagged word lies inside one of them. */
  lemma SpansAreDisjoint(minWords: nat, docTokens: seq<Token>, sources: seq<Source>, matches: seq<Match>)
    requires minWords >= 1
    requires Ordered(docTokens)
    requires Renders(docTokens, sources, NaiveScan(Norms(docTokens), SourceWords(sources), minWords, 0), matches)
    ensures DisjointSpans(DocSpans(matches))
    ensures forall i :: 0 <= i < |matches| ==> matches[i].docStart < matches[i].docEnd
    ensures forall i, j :: 0 <= i < j < |matches| ==> matches[i].docEnd <= matches[j].docStart
  {
    hide NaiveScan, SourceWords, Norms, Render, Ordered;
    var hits := NaiveScan(Norms(docTokens), SourceWords(sources), minWords, 0);
    forall i | 0 <= i < |matches| ensures matches[i].docStart < matches[i].docEnd {
      RenderedSpan(docTokens, sources, hits[i]);
    }
    forall i, j | 0 <= i < j < |matches| ensures matches[i].docEnd <= matches[j].docStart {
      HitsAreDisjoint(Norms(docTokens), SourceWords(sources), minWords, 0, i, j);
      RenderedApart(docTokens, sources, hits[i], hits[j]);
    }
  }

  lemma RenderedSpan(docTokens: seq<Token>, sources: seq<Source>, h: Hit)
    requires Ordered(docTokens) && Fits(docTokens, sources, h)
    ensures Render(docTokens, sources, h).docStart < Render(docTokens, sources, h).docEnd
  {
    assert docTokens[h.at].start < docTokens[h.at].end <= docTokens[h.at + h.words - 1].end;
  }

  lemma RenderedApart(docTokens: seq<Token>, sources: seq<Source>, g: Hit, h: Hit)
    requires Ordered(docTokens) && Fits(docTokens, sources, g) && Fits(docTokens, sources, h)
    requires g.at + g.words <= h.at
    ensures Render(docTokens, sources, g).docEnd <= Render(docTokens, sources, h).docStart
  {
    assert docTokens[g.at + g.words - 1].end <= docTokens[h.at].start;
  }

  ghost predicate InSomeSpan(matches: seq<Match>, a: int, b: int) {
    exists m :: m in matches && m.docStart <= a && b <= m.docEnd
  }

  lemma RenderSpansItsWords(docTokens: seq<Token>, sources: seq<Source>, h: Hit, x: nat)
    requires Ordered(docTokens)
    requires Fits(docTokens, sources, h)
    requires h.at <= x < h.at + h.words
    ensures var m := Render(docTokens, sources, h);
            m.docStart <= docTokens[x].start && docTokens[x].end <= m.docEnd
  {
    if h.at < x {
      assert docTokens[h.at].end <= docTokens[x].start;
    }
    if x < h.at + h.words - 1 {
      assert docTokens[x].end <= docTokens[h.at + h.words - 1].start;
    }
  }

  lemma FlaggedIsInSpan(docTokens: seq<Token>, sources: seq<Source>, hits: seq<Hit>, matches: seq<Match>, x: nat)
    requires Ordered(docTokens) && x < |docTokens|
    requires Renders(docTokens, sources, hits, matches)
    requires Flagged(hits, x)
    ensures InSomeSpan(matches, docTokens[x].start, docTokens[x].end)
  {
    var h :| h in hits && h.at <= x < h.at + h.words;
    var i :| 0 <= i < |hits| && hits[i] == h;
    RenderSpansItsWords(docTokens, sources, h, x);
    var m := matches[i];
    assert m == Render(docTokens, sources, h);
    assert m in matches;
  }

  /** Coverage on characters: a word of a copied stretch, apart from the last
      `minWords - 1` words, lies inside a reported span. */
  lemma CoverageOfText(minWords: nat, docTokens: seq<Token>, sources: seq<Source>, matches: seq<Match>,
                       from: nat, to: nat, p: Place, x: nat)
    requires minWords >= 1
    requires Ordered(docTokens)
    requires Renders(docTokens, sources, NaiveScan(Norms(docTokens), SourceWords(sources), minWords, 0), matches)
    requires CopiedFrom(Norms(docTokens), SourceWords(sources), from, to, p)
    requires from <= x && x + minWords <= to
    ensures InSomeSpan(matches, docTokens[x].start, docTokens[x].end)
  {
    var doc, srcs := Norms(docTokens), SourceWords(sources);
    var hits := NaiveScan(doc, srcs, minWords, 0);
    Coverage(doc, srcs, minWords, from, to, p, x);
    FlaggedIsInSpan(docTokens, sources, hits, matches, x);
  }
}
