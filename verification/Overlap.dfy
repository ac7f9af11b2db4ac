/** How much of a sentence is already reported as copied: the ratio that decides whether
    a sentence is left out of the paraphrase search. */
module Overlap {
  import opened Matches
  import opened Sets

  /** Characters of `[a, b)` inside the range `r`. */
  function Clip(a: int, b: int, r: (int, int)): int {
    Max(0, Min(b, r.1) - Max(a, r.0))
  }

  function ClipSum(a: int, b: int, ranges: seq<(int, int)>): int {
    if ranges == [] then 0 else ClipSum(a, b, ranges[..|ranges| - 1]) + Clip(a, b, ranges[|ranges| - 1])
  }

  ghost predicate InRange(x: int, r: (int, int)) {
    r.0 <= x < r.1
  }

  ghost predicate InSome(x: int, ranges: seq<(int, int)>) {
    exists i :: 0 <= i < |ranges| && InRange(x, ranges[i])
  }

  /** The characters of `[a, b)` inside at least one range. */
  ghost function CoveredChars(a: int, b: int, ranges: seq<(int, int)>): set<int> {
    set x | x in Interval(a, b) && InSome(x, ranges)
  }

  lemma InSomeOfLast(x: int, init: seq<(int, int)>, last: (int, int))
    ensures InSome(x, init + [last]) <==> InSome(x, init) || InRange(x, last)
  {
    var all := init + [last];
    if InSome(x, init) {
      var i :| 0 <= i < |init| && InRange(x, init[i]);
      assert all[i] == init[i];
    }
    assert all[|init|] == last;
  }

  lemma CoveredWithLast(a: int, b: int, init: seq<(int, int)>, last: (int, int))
    requires DisjointSpans(init + [last])
    ensures |CoveredChars(a, b, init + [last])| == |CoveredChars(a, b, init)| + Clip(a, b, last)
  {
    var clipped := Interval(Max(a, last.0), Min(b, last.1));
    var all := CoveredChars(a, b, init + [last]);
    forall x ensures x in all <==> x in CoveredChars(a, b, init) || x in clipped {
      InSomeOfLast(x, init, last);
    }
    assert all == CoveredChars(a, b, init) + clipped;
    forall x | x in CoveredChars(a, b, init) ensures x !in clipped {
      var i :| 0 <= i < |init| && InRange(x, init[i]);
      assert (init + [last])[i] == init[i] && (init + [last])[|init|] == last;
    }
    assert CoveredChars(a, b, init) !! clipped;
  }

  /** On disjoint ranges the clipped lengths add up to the number of covered characters:
      nothing is counted twice. */
  lemma {:induction false} ClipSumCountsCharacters(a: int, b: int, ranges: seq<(int, int)>)
    requires DisjointSpans(ranges)
    ensures ClipSum(a, b, ranges) == |CoveredChars(a, b, ranges)|
    decreases |ranges|
  {
    if ranges == [] {
      assert CoveredChars(a, b, ranges) == {};
    } else {
      var init, last := ranges[..|ranges| - 1], ranges[|ranges| - 1];
      assert ranges == init + [last];
      ClipSumCountsCharacters(a, b, init);
      CoveredWithLast(a, b, init, last);
    }
  }

  lemma CoveredAtMostAll(a: int, b: int, ranges: seq<(int, int)>)
    requires a <= b
    ensures |CoveredChars(a, b, ranges)| <= b - a
  {
    SubsetSize(CoveredChars(a, b, ranges), Interval(a, b));
  }

  /** The share of `[a, b)` that lies in the ranges; against disjoint ranges it is the true
      coverage, between 0 and 1. */
  method OverlapRatio(a: int, b: int, ranges: seq<(int, int)>) returns (ratio: real)
    ensures b <= a ==> ratio == 0.0
    ensures a < b ==> ratio == ClipSum(a, b, ranges) as real / (b - a) as real
    ensures a < b && DisjointSpans(ranges) ==>
      ratio == |CoveredChars(a, b, ranges)| as real / (b - a) as real && 0.0 <= ratio <= 1.0
  {
    if b <= a {
      return 0.0;
    }
    var covered := 0;
    for i := 0 to |ranges|
      invariant covered == ClipSum(a, b, ranges[..i])
    {
      assert ranges[..i + 1][..i] == ranges[..i];
      covered := covered + Max(0, Min(b, ranges[i].1) - Max(a, ranges[i].0));
    }
    assert ranges[..|ranges|] == ranges;
    ratio := covered as real / (b - a) as real;
    if DisjointSpans(ranges) {
      ClipSumCountsCharacters(a, b, ranges);
      CoveredAtMostAll(a, b, ranges);
      RatioWithinOne(covered, b - a);
    }
  }

  lemma RatioWithinOne(part: int, whole: int)
    requires 0 <= part <= whole && 0 < whole
    ensures 0.0 <= part as real / whole as real <= 1.0
  {
    var r := part as real / whole as real;
    assert r * (whole as real) == part as real;
  }
}
