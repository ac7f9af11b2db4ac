/** What the verbatim matcher has to find, stated without any index: at every
    document position look at every (source, position) pair and take the longest
    run of equal words, the earliest pair winning ties. */
module VerbatimSpec {

  type Words = seq<string>

  datatype Place = Place(source: nat, pos: nat)

  /** The best common run found so far; `words == 0` means none. */
  datatype Run = Run(words: nat, place: Place)

  /** A reported run: `words` document words from `at`, equal to those at `place`. */
  datatype Hit = Hit(at: nat, words: nat, place: Place)

  ghost predicate InSources(srcs: seq<Words>, p: Place) {
    p.source < |srcs| && p.pos < |srcs[p.source]|
  }

  /** Sources in order, positions in order within a source. */
  predicate Before(p: Place, q: Place) {
    p.source < q.source || (p.source == q.source && p.pos < q.pos)
  }

  // ---------------------------------------------------------------- common runs

  function CommonRun(doc: Words, i: nat, src: Words, j: nat): (n: nat)
    decreases |doc| - i
  {
    if i < |doc| && j < |src| && doc[i] == src[j] then 1 + CommonRun(doc, i + 1, src, j + 1) else 0
  }

  /** CommonRun is the longest stretch on which the two word sequences agree. */
  lemma {:induction false} CommonRunIsMaximal(doc: Words, i: nat, src: Words, j: nat)
    requires i <= |doc| && j <= |src|
    ensures var n := CommonRun(doc, i, src, j);
            && i + n <= |doc| && j + n <= |src|
            && doc[i..i + n] == src[j..j + n]
            && (i + n < |doc| && j + n < |src| ==> doc[i + n] != src[j + n])
    decreases |doc| - i
  {
    if i < |doc| && j < |src| && doc[i] == src[j] {
      CommonRunIsMaximal(doc, i + 1, src, j + 1);
      var n := CommonRun(doc, i + 1, src, j + 1);
      assert doc[i..i + 1 + n] == [doc[i]] + doc[i + 1..i + 1 + n];
      assert src[j..j + 1 + n] == [src[j]] + src[j + 1..j + 1 + n];
    }
  }

  /** Agreement on `m` words is the same as a common run of at least `m`. */
  lemma {:induction false} CommonRunAtLeast(doc: Words, i: nat, src: Words, j: nat, m: nat)
    requires i + m <= |doc| && j + m <= |src|
    ensures doc[i..i + m] == src[j..j + m] <==> CommonRun(doc, i, src, j) >= m
    decreases m
  {
    if m > 0 {
      var a, b := doc[i..i + m], src[j..j + m];
      if doc[i] == src[j] {
        CommonRunAtLeast(doc, i + 1, src, j + 1, m - 1);
        assert a == [doc[i]] + doc[i + 1..i + m];
        assert b == [src[j]] + src[j + 1..j + m];
        assert a[1..] == doc[i + 1..i + m] && b[1..] == src[j + 1..j + m];
      } else {
        assert a[0] != b[0];
      }
    }
  }

  function RunAt(doc: Words, i: nat, srcs: seq<Words>, p: Place): nat {
    if p.source < |srcs| then CommonRun(doc, i, srcs[p.source], p.pos) else 0
  }

  // ---------------------------------------------------------------- brute force

  function Better(best: Run, words: nat, p: Place): Run {
    if words > best.words then Run(words, p) else best
  }

  /** The best run over sources before `s` and the first `upto` positions of source `s`. */
  function BestUpto(doc: Words, i: nat, srcs: seq<Words>, s: nat, upto: nat): Run
    requires s <= |srcs|
    requires s < |srcs| ==> upto <= |srcs[s]|
    requires s == |srcs| ==> upto == 0
    decreases s, upto
  {
    if upto > 0 then
      var p := Place(s, upto - 1);
      Better(BestUpto(doc, i, srcs, s, upto - 1), RunAt(doc, i, srcs, p), p)
    else if s > 0 then
      BestUpto(doc, i, srcs, s - 1, |srcs[s - 1]|)
    else
      Run(0, Place(0, 0))
  }

  function Best(doc: Words, i: nat, srcs: seq<Words>): Run {
    BestUpto(doc, i, srcs, |srcs|, 0)
  }

  /** The naive scan: flag the best run when it is long enough and jump over it,
      otherwise move on by one word. */
  function NaiveScan(doc: Words, srcs: seq<Words>, minWords: nat, di: nat): seq<Hit>
    requires minWords >= 1
    decreases |doc| - di
  {
    if di >= |doc| then
      []
    else
      var best := Best(doc, di, srcs);
      if best.words >= minWords then
        [Hit(di, best.words, best.place)] + NaiveScan(doc, srcs, minWords, di + best.words)
      else
        NaiveScan(doc, srcs, minWords, di + 1)
  }

  /** `run` is the longest common run at document word `i`, at its earliest place. */
  ghost predicate IsFirstLongest(doc: Words, i: nat, srcs: seq<Words>, run: Run) {
    && InSources(srcs, run.place)
    && run.words == RunAt(doc, i, srcs, run.place)
    && (forall p :: InSources(srcs, p) ==> RunAt(doc, i, srcs, p) <= run.words)
    && (forall p :: InSources(srcs, p) && Before(p, run.place) ==> RunAt(doc, i, srcs, p) < run.words)
  }

  ghost predicate Seen(srcs: seq<Words>, s: nat, upto: nat, p: Place) {
    InSources(srcs, p) && Before(p, Place(s, upto))
  }

  lemma {:induction false} BestUptoIsFirstLongest(doc: Words, i: nat, srcs: seq<Words>, s: nat, upto: nat)
    requires s <= |srcs|
    requires s < |srcs| ==> upto <= |srcs[s]|
    requires s == |srcs| ==> upto == 0
    ensures var best := BestUpto(doc, i, srcs, s, upto);
            && (forall p :: Seen(srcs, s, upto, p) ==> RunAt(doc, i, srcs, p) <= best.words)
            && (best.words > 0 ==>
                  && Seen(srcs, s, upto, best.place)
                  && best.words == RunAt(doc, i, srcs, best.place)
                  && forall p :: InSources(srcs, p) && Before(p, best.place) ==> RunAt(doc, i, srcs, p) < best.words)
    decreases s, upto
  {
    var best := BestUpto(doc, i, srcs, s, upto);
    if upto > 0 {
      BestUptoIsFirstLongest(doc, i, srcs, s, upto - 1);
      var last := Place(s, upto - 1);
      forall p | Seen(srcs, s, upto, p) ensures RunAt(doc, i, srcs, p) <= best.words {
        assert p == last || Seen(srcs, s, upto - 1, p);
      }
      if best.place == last && best.words > 0 && best == Run(RunAt(doc, i, srcs, last), last) {
        forall p | InSources(srcs, p) && Before(p, last) ensures RunAt(doc, i, srcs, p) < best.words || best == BestUpto(doc, i, srcs, s, upto - 1) {
          assert Seen(srcs, s, upto - 1, p);
        }
      }
    } else if s > 0 {
      BestUptoIsFirstLongest(doc, i, srcs, s - 1, |srcs[s - 1]|);
      forall p | Seen(srcs, s, upto, p) ensures RunAt(doc, i, srcs, p) <= best.words {
        assert Seen(srcs, s - 1, |srcs[s - 1]|, p);
      }
    }
  }

  /** The brute-force search finds exactly the first longest run, and reports none
      only when no place shares even one word. */
  lemma BestIsFirstLongest(doc: Words, i: nat, srcs: seq<Words>)
    ensures var best := Best(doc, i, srcs);
            && (forall p :: InSources(srcs, p) ==> RunAt(doc, i, srcs, p) <= best.words)
            && (best.words > 0 ==> IsFirstLongest(doc, i, srcs, best))
  {
    BestUptoIsFirstLongest(doc, i, srcs, |srcs|, 0);
    forall p | InSources(srcs, p) ensures Seen(srcs, |srcs|, 0, p) {}
  }

  lemma FirstLongestIsBest(doc: Words, i: nat, srcs: seq<Words>, run: Run)
    requires run.words > 0 && IsFirstLongest(doc, i, srcs, run)
    ensures run == Best(doc, i, srcs)
  {
    BestIsFirstLongest(doc, i, srcs);
    var best := Best(doc, i, srcs);
    assert Before(run.place, best.place) || Before(best.place, run.place) || run.place == best.place;
  }

  // ---------------------------------------------------------------- what a scan reports

  /** `h` copies its words from its place, cannot be longer there, and no place offers
      a longer run, nor an earlier place one as long. */
  ghost predicate GoodHit(doc: Words, srcs: seq<Words>, minWords: nat, h: Hit) {
    && h.words >= minWords
    && IsFirstLongest(doc, h.at, srcs, Run(h.words, h.place))
    && h.at + h.words <= |doc|
    && h.place.pos + h.words <= |srcs[h.place.source]|
    && doc[h.at..h.at + h.words] == srcs[h.place.source][h.place.pos..h.place.pos + h.words]
  }

  ghost predicate Flagged(hits: seq<Hit>, x: nat) {
    exists h :: h in hits && h.at <= x < h.at + h.words
  }

  lemma BestFits(doc: Words, i: nat, srcs: seq<Words>)
    requires i <= |doc|
    ensures var best := Best(doc, i, srcs);
            i + best.words <= |doc| && (best.words > 0 ==> GoodHit(doc, srcs, 1, Hit(i, best.words, best.place)))
  {
    BestIsFirstLongest(doc, i, srcs);
    var best := Best(doc, i, srcs);
    if best.words > 0 {
      CommonRunIsMaximal(doc, i, srcs[best.place.source], best.place.pos);
    }
  }

  /** Every hit starts at or after the cursor and is a genuine longest copy. */
  lemma {:induction false} HitIsGood(doc: Words, srcs: seq<Words>, minWords: nat, di: nat, h: Hit)
    requires minWords >= 1
    requires h in NaiveScan(doc, srcs, minWords, di)
    ensures di <= h.at && GoodHit(doc, srcs, minWords, h)
    decreases |doc| - di
  {
    var best := Best(doc, di, srcs);
    if best.words >= minWords {
      if h == Hit(di, best.words, best.place) {
        BestFits(doc, di, srcs);
      } else {
        HitIsGood(doc, srcs, minWords, di + best.words, h);
      }
    } else {
      HitIsGood(doc, srcs, minWords, di + 1, h);
    }
  }

  /** Hits are in document order and never overlap. */
  lemma {:induction false} HitsAreDisjoint(doc: Words, srcs: seq<Words>, minWords: nat, di: nat, i: nat, j: nat)
    requires minWords >= 1
    requires i < j < |NaiveScan(doc, srcs, minWords, di)|
    ensures var hits := NaiveScan(doc, srcs, minWords, di);
            hits[i].at + hits[i].words <= hits[j].at
    decreases |doc| - di
  {
    var best := Best(doc, di, srcs);
    if best.words >= minWords {
      var next := di + best.words;
      var rest := NaiveScan(doc, srcs, minWords, next);
      assert NaiveScan(doc, srcs, minWords, di)[j] == rest[j - 1];
      if i == 0 {
        HitIsGood(doc, srcs, minWords, next, rest[j - 1]);
      } else {
        HitsAreDisjoint(doc, srcs, minWords, next, i - 1, j - 1);
      }
    } else {
      HitsAreDisjoint(doc, srcs, minWords, di + 1, i, j);
    }
  }

  /** Fewer than `minWords` words left cannot hold another hit. */
  lemma {:induction false} TailIsTooShort(doc: Words, srcs: seq<Words>, minWords: nat, di: nat)
    requires minWords >= 1 && |doc| - di < minWords
    ensures NaiveScan(doc, srcs, minWords, di) == []
    decreases |doc| - di
  {
    if di < |doc| {
      BestFits(doc, di, srcs);
      TailIsTooShort(doc, srcs, minWords, di + 1);
    }
  }

  // ---------------------------------------------------------------- coverage

  /** Words `[from, to)` of the document occur contiguously at `p`. */
  ghost predicate CopiedFrom(doc: Words, srcs: seq<Words>, from: nat, to: nat, p: Place) {
    && from <= to <= |doc|
    && p.source < |srcs|
    && p.pos + (to - from) <= |srcs[p.source]|
    && doc[from..to] == srcs[p.source][p.pos..p.pos + (to - from)]
  }

  lemma CopyGivesRun(doc: Words, srcs: seq<Words>, from: nat, to: nat, p: Place, x: nat)
    requires CopiedFrom(doc, srcs, from, to, p)
    requires from <= x < to
    ensures Best(doc, x, srcs).words >= to - x
  {
    var src := srcs[p.source];
    var q := Place(p.source, p.pos + (x - from));
    assert doc[x..to] == doc[from..to][x - from..];
    assert src[q.pos..q.pos + (to - x)] == src[p.pos..p.pos + (to - from)][x - from..];
    CommonRunAtLeast(doc, x, src, q.pos, to - x);
    BestIsFirstLongest(doc, x, srcs);
    assert InSources(srcs, q);
  }

  /** A word at which a long enough run starts is flagged whenever the cursor has not passed it. */
  lemma {:induction false} LongRunIsFlagged(doc: Words, srcs: seq<Words>, minWords: nat, di: nat, x: nat)
    requires minWords >= 1
    requires di <= x < |doc|
    requires Best(doc, x, srcs).words >= minWords
    ensures Flagged(NaiveScan(doc, srcs, minWords, di), x)
    decreases |doc| - di
  {
    var best := Best(doc, di, srcs);
    var hits := NaiveScan(doc, srcs, minWords, di);
    if best.words >= minWords {
      assert hits[0] == Hit(di, best.words, best.place);
      if x >= di + best.words {
        var rest := NaiveScan(doc, srcs, minWords, di + best.words);
        LongRunIsFlagged(doc, srcs, minWords, di + best.words, x);
        var h :| h in rest && h.at <= x < h.at + h.words;
        assert h in hits;
      }
    } else {
      LongRunIsFlagged(doc, srcs, minWords, di + 1, x);
    }
  }

  /** Coverage: in any stretch copied from a source, an unflagged word can only be one of
      the last `minWords - 1` words of the stretch. */
  lemma Coverage(doc: Words, srcs: seq<Words>, minWords: nat, from: nat, to: nat, p: Place, x: nat)
    requires minWords >= 1
    requires CopiedFrom(doc, srcs, from, to, p)
    requires from <= x < to
    ensures Flagged(NaiveScan(doc, srcs, minWords, 0), x) || to - x < minWords
  {
    if to - x >= minWords {
      CopyGivesRun(doc, srcs, from, to, p, x);
      LongRunIsFlagged(doc, srcs, minWords, 0, x);
    }
  }

  /** Conversely nothing is flagged without reason: a flagged word belongs to a stretch of
      at least `minWords` document words copied from one place. */
  lemma FlaggedIsCopied(doc: Words, srcs: seq<Words>, minWords: nat, x: nat)
    requires minWords >= 1
    requires Flagged(NaiveScan(doc, srcs, minWords, 0), x)
    ensures exists from: nat, to: nat, p :: from <= x < to && to - from >= minWords && CopiedFrom(doc, srcs, from, to, p)
  {
    var h :| h in NaiveScan(doc, srcs, minWords, 0) && h.at <= x < h.at + h.words;
    HitIsGood(doc, srcs, minWords, 0, h);
    assert CopiedFrom(doc, srcs, h.at, h.at + h.words, h.place);
  }

  /** `h` begins before the stretch `[from, to)`, ends inside it and leaves fewer than
      `minWords` of its words, `x` among them. */
  ghost predicate Overruns(h: Hit, minWords: nat, from: nat, to: nat, x: nat) {
    h.at < from && to - minWords < h.at + h.words <= x
  }

  lemma {:induction false} TailIsFlaggedOrOverrun(doc: Words, srcs: seq<Words>, minWords: nat, di: nat,
                                                  from: nat, to: nat, p: Place, x: nat)
    requires minWords >= 1 && di + minWords <= to
    requires CopiedFrom(doc, srcs, from, to, p) && to - from >= minWords
    requires from <= x && to - minWords < x < to
    ensures var hits := NaiveScan(doc, srcs, minWords, di);
            Flagged(hits, x) || exists h :: h in hits && Overruns(h, minWords, from, to, x)
    decreases |doc| - di
  {
    var best, hits := Best(doc, di, srcs), NaiveScan(doc, srcs, minWords, di);
    if di >= from {
      CopyGivesRun(doc, srcs, from, to, p, di);
      assert hits[0] == Hit(di, best.words, best.place);
    } else if best.words < minWords {
      TailIsFlaggedOrOverrun(doc, srcs, minWords, di + 1, from, to, p, x);
    } else {
      var h := Hit(di, best.words, best.place);
      assert hits[0] == h && h in hits;
      if di + best.words + minWords <= to {
        var rest := NaiveScan(doc, srcs, minWords, di + best.words);
        TailIsFlaggedOrOverrun(doc, srcs, minWords, di + best.words, from, to, p, x);
        assert forall g :: g in rest ==> g in hits;
      } else {
        assert x < di + best.words || Overruns(h, minWords, from, to, x);
      }
    }
  }

  /** An unflagged word of a copied stretch of at least `minWords` words was left over by a reported run that begins before the stretch and ends inside it. */
  lemma UnflaggedWasOverrun(doc: Words, srcs: seq<Words>, minWords: nat, from: nat, to: nat, p: Place, x: nat)
    requires minWords >= 1
    requires CopiedFrom(doc, srcs, from, to, p) && to - from >= minWords
    requires from <= x < to
    ensures var hits := NaiveScan(doc, srcs, minWords, 0);
            Flagged(hits, x) || exists h :: h in hits && Overruns(h, minWords, from, to, x)
  {
    if to - x >= minWords {
      Coverage(doc, srcs, minWords, from, to, p, x);
    } else {
      TailIsFlaggedOrOverrun(doc, srcs, minWords, 0, from, to, p, x);
    }
  }

  /** Whatever flags a word behind a reported run begins behind that run, and is the longest run
      where it begins. */
  lemma FlaggedBehind(doc: Words, srcs: seq<Words>, minWords: nat, h: Hit, x: nat) returns (g: Hit)
    requires minWords >= 1
    requires h in NaiveScan(doc, srcs, minWords, 0) && h.at + h.words <= x
    requires Flagged(NaiveScan(doc, srcs, minWords, 0), x)
    ensures g in NaiveScan(doc, srcs, minWords, 0) && h.at + h.words <= g.at <= x < g.at + g.words
    ensures g.words == Best(doc, g.at, srcs).words >= minWords
  {
    var hits := NaiveScan(doc, srcs, minWords, 0);
    g :| g in hits && g.at <= x < g.at + g.words;
    var i, j :| 0 <= i < |hits| && 0 <= j < |hits| && hits[i] == h && hits[j] == g;
    if j < i {
      HitsAreDisjoint(doc, srcs, minWords, 0, j, i);
    } else if i < j {
      HitsAreDisjoint(doc, srcs, minWords, 0, i, j);
    }
    HitIsGood(doc, srcs, minWords, 0, g);
    FirstLongestIsBest(doc, g.at, srcs, Run(g.words, g.place));
  }

  /** Exactly when a word of a copied stretch is missed: a reported run that begins before the
      stretch ends inside it, fewer than `minWords` words from its end, and from there up to the
      word no run of at least `minWords` begins. */
  lemma UnflaggedIff(doc: Words, srcs: seq<Words>, minWords: nat, from: nat, to: nat, p: Place, x: nat)
    requires minWords >= 1
    requires CopiedFrom(doc, srcs, from, to, p) && to - from >= minWords
    requires from <= x < to
    ensures var hits := NaiveScan(doc, srcs, minWords, 0);
            !Flagged(hits, x) <==>
            exists h :: h in hits && Overruns(h, minWords, from, to, x)
                        && forall y: nat :: h.at + h.words <= y <= x ==> Best(doc, y, srcs).words < minWords
  {
    var hits := NaiveScan(doc, srcs, minWords, 0);
    if !Flagged(hits, x) {
      UnflaggedWasOverrun(doc, srcs, minWords, from, to, p, x);
      var h :| h in hits && Overruns(h, minWords, from, to, x);
      forall y: nat | h.at + h.words <= y <= x ensures Best(doc, y, srcs).words < minWords {
        if Best(doc, y, srcs).words >= minWords {
          LongRunIsFlagged(doc, srcs, minWords, 0, y);
          var g := FlaggedBehind(doc, srcs, minWords, h, y);
          assert false;
        }
      }
    } else if h :| h in hits && Overruns(h, minWords, from, to, x)
                   && forall y: nat :: h.at + h.words <= y <= x ==> Best(doc, y, srcs).words < minWords {
      var g := FlaggedBehind(doc, srcs, minWords, h, x);
      assert false;
    }
  }

  /** Exactly when a whole copied stretch is flagged: wherever a reported run that begins before
      it ends inside it, fewer than `minWords` words from its end, another reportable run begins. */
  lemma WholeStretchIsFlagged(doc: Words, srcs: seq<Words>, minWords: nat, from: nat, to: nat, p: Place)
    requires minWords >= 1
    requires CopiedFrom(doc, srcs, from, to, p) && to - from >= minWords
    ensures var hits := NaiveScan(doc, srcs, minWords, 0);
            (forall x: nat :: from <= x < to ==> Flagged(hits, x)) <==>
            forall h :: h in hits && h.at < from && to - minWords < h.at + h.words < to ==>
                          Best(doc, h.at + h.words, srcs).words >= minWords
  {
    var hits := NaiveScan(doc, srcs, minWords, 0);
    if forall x: nat :: from <= x < to ==> Flagged(hits, x) {
      forall h | h in hits && h.at < from && to - minWords < h.at + h.words < to
        ensures Best(doc, h.at + h.words, srcs).words >= minWords
      {
        var g := FlaggedBehind(doc, srcs, minWords, h, h.at + h.words);
      }
    }
    if forall h :: h in hits && h.at < from && to - minWords < h.at + h.words < to ==>
                     Best(doc, h.at + h.words, srcs).words >= minWords {
      forall x: nat | from <= x < to ensures Flagged(hits, x) {
        UnflaggedIff(doc, srcs, minWords, from, to, p, x);
      }
    }
  }

  /** The bound of Coverage is reached: in any document of `2 * minWords - 1` words, when one
      source holds the first `minWords` and another the last `minWords`, the cursor jumps over
      the one word they share and the other `minWords - 1` words of the second copy stay
      unflagged. */
  lemma TailCanBeMissed(doc: Words, minWords: nat, x: nat)
    requires minWords >= 2 && |doc| == 2 * minWords - 1
    requires minWords <= x < |doc|
    ensures var srcs := [doc[..minWords], doc[minWords - 1..]];
            && CopiedFrom(doc, srcs, minWords - 1, |doc|, Place(1, 0))
            && !Flagged(NaiveScan(doc, srcs, minWords, 0), x)
  {
    var srcs := [doc[..minWords], doc[minWords - 1..]];
    var best := Best(doc, 0, srcs);
    assert CopiedFrom(doc, srcs, 0, minWords, Place(0, 0));
    CopyGivesRun(doc, srcs, 0, minWords, Place(0, 0), 0);
    BestFits(doc, 0, srcs);
    assert best.words == minWords;
    TailIsTooShort(doc, srcs, minWords, minWords);
    assert NaiveScan(doc, srcs, minWords, 0) == [Hit(0, minWords, best.place)];
  }
}
