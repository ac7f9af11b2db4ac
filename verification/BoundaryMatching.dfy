/** Boundary detection scores: predicted boundaries are paired with true ones within a
    tolerance, greedily. */
module BoundaryMatching {
  import opened Rounding

  predicate Close(p: int, t: int, tolerance: int) {
    -tolerance <= p - t <= tolerance
  }

  ghost predicate Ascending(s: seq<int>) {
    forall i, j :: 0 <= i < j < |s| ==> s[i] <= s[j]
  }

  /** Pairs (prediction, truth): every boundary on either side used at most once, each pair
      within the tolerance. */
  ghost predicate IsMatching(m: set<(nat, nat)>, preds: seq<int>, trues: seq<int>, tolerance: int) {
    && (forall x :: x in m ==> x.0 < |preds| && x.1 < |trues| && Close(preds[x.0], trues[x.1], tolerance))
    && (forall x, y :: x in m && y in m && (x.0 == y.0 || x.1 == y.1) ==> x == y)
  }

  /** Pairs of predictions from `i` on with truths not yet matched. */
  ghost predicate Open(m: set<(nat, nat)>, i: nat, matched: set<nat>) {
    forall x :: x in m ==> i <= x.0 && x.1 !in matched
  }

  lemma SubsetMatches(m: set<(nat, nat)>, r: set<(nat, nat)>, preds: seq<int>, trues: seq<int>, tolerance: int)
    requires IsMatching(m, preds, trues, tolerance) && r <= m
    ensures IsMatching(r, preds, trues, tolerance)
  {}

  lemma AddPair(m: set<(nat, nat)>, a: nat, b: nat, preds: seq<int>, trues: seq<int>, tolerance: int)
    requires IsMatching(m, preds, trues, tolerance)
    requires a < |preds| && b < |trues| && Close(preds[a], trues[b], tolerance)
    requires forall x :: x in m ==> x.0 != a && x.1 != b
    ensures IsMatching(m + {(a, b)}, preds, trues, tolerance)
    ensures |m + {(a, b)}| == |m| + 1
  {
    assert (a, b) !in m;
  }

  // ---------------------------------------------------------------- the greedy loop

  function FirstFitFrom(trues: seq<int>, p: int, tolerance: int, matched: set<nat>, t: nat): nat
    decreases |trues| - t
  {
    if t >= |trues| || (t !in matched && Close(p, trues[t], tolerance)) then t
    else FirstFitFrom(trues, p, tolerance, matched, t + 1)
  }

  /** How many of the predictions from `i` on find a partner, those before having taken `matched`. */
  function Greedy(preds: seq<int>, trues: seq<int>, tolerance: int, i: nat, matched: set<nat>): nat
    decreases |preds| - i
  {
    if i >= |preds| then 0
    else
      var t := FirstFitFrom(trues, preds[i], tolerance, matched, 0);
      if t < |trues| then 1 + Greedy(preds, trues, tolerance, i + 1, matched + {t})
      else Greedy(preds, trues, tolerance, i + 1, matched)
  }

  /** The inner loop: the first unmatched true boundary close to `p`, or the length if none. */
  method FirstFit(trues: seq<int>, p: int, tolerance: int, matched: set<nat>) returns (ti: nat)
    ensures ti == FirstFitFrom(trues, p, tolerance, matched, 0) <= |trues|
  {
    ti := 0;
    while ti < |trues| && (ti in matched || !Close(p, trues[ti], tolerance))
      invariant 0 <= ti <= |trues|
      invariant FirstFitFrom(trues, p, tolerance, matched, ti) == FirstFitFrom(trues, p, tolerance, matched, 0)
    {
      ti := ti + 1;
    }
  }

  lemma FirstFitMeaning(trues: seq<int>, p: int, tolerance: int, matched: set<nat>, t: nat)
    requires t <= |trues|
    ensures var ti := FirstFitFrom(trues, p, tolerance, matched, t);
            && t <= ti <= |trues|
            && (ti < |trues| ==> ti !in matched && Close(p, trues[ti], tolerance))
            && (forall k :: t <= k < ti ==> k in matched || !Close(p, trues[k], tolerance))
    decreases |trues| - t
  {}

  /** The greedy pairs form a matching of the remaining predictions with unmatched truths. */
  lemma {:induction false} GreedyMatches(preds: seq<int>, trues: seq<int>, tolerance: int, i: nat, matched: set<nat>)
    returns (m: set<(nat, nat)>)
    ensures IsMatching(m, preds, trues, tolerance) && Open(m, i, matched)
    ensures |m| == Greedy(preds, trues, tolerance, i, matched)
    decreases |preds| - i
  {
    if i >= |preds| {
      m := {};
    } else {
      var t := FirstFitFrom(trues, preds[i], tolerance, matched, 0);
      FirstFitMeaning(trues, preds[i], tolerance, matched, 0);
      if t < |trues| {
        m := GreedyMatches(preds, trues, tolerance, i + 1, matched + {t});
        AddPair(m, i, t, preds, trues, tolerance);
        m := m + {(i, t)};
      } else {
        m := GreedyMatches(preds, trues, tolerance, i + 1, matched);
      }
    }
  }

  // ---------------------------------------------------------------- when it is optimal

  /** No boundary stands before a smaller one that could be paired with the same boundary of the
      other list. */
  ghost predicate NoCloseInversion(s: seq<int>, tolerance: int) {
    forall i, j :: 0 <= i < j < |s| ==> s[i] <= s[j] || s[i] - s[j] > 2 * tolerance
  }

  /** Then the first fit is the smallest. */
  lemma FirstFitIsSmallest(trues: seq<int>, p: int, tolerance: int, matched: set<nat>, b: nat)
    requires NoCloseInversion(trues, tolerance)
    requires b < |trues| && b !in matched && Close(p, trues[b], tolerance)
    ensures var t := FirstFitFrom(trues, p, tolerance, matched, 0);
            t <= b && trues[t] <= trues[b]
  {
    FirstFitMeaning(trues, p, tolerance, matched, 0);
  }

  lemma PairIsClose(m: set<(nat, nat)>, preds: seq<int>, trues: seq<int>, tolerance: int, x: (nat, nat))
    requires IsMatching(m, preds, trues, tolerance) && x in m
    ensures x.0 < |preds| && x.1 < |trues| && Close(preds[x.0], trues[x.1], tolerance)
  {}

  /** Prediction `i` and its first fit `t` are paired with others: take both pairs away and pair
      the partners instead. */
  lemma SwapPartners(m: set<(nat, nat)>, preds: seq<int>, trues: seq<int>, tolerance: int, matched: set<nat>,
                     i: nat, t: nat, a: nat, b: nat)
    returns (r: set<(nat, nat)>)
    requires NoCloseInversion(preds, tolerance)
    requires IsMatching(m, preds, trues, tolerance) && Open(m, i, matched)
    requires i < |preds| && t < |trues| && Close(preds[i], trues[t], tolerance)
    requires b < |trues| && trues[t] <= trues[b]
    requires (i, b) in m && (a, t) in m && a != i
    ensures IsMatching(r, preds, trues, tolerance) && Open(r, i + 1, matched + {t})
    ensures |m| == |r| + 1
  {
    var rest := m - {(i, b)} - {(a, t)};
    assert (a, t) in m - {(i, b)};
    assert |m| == |rest| + 2;
    assert b != t && i < a;
    assert forall x :: x in rest ==> x.0 != i && x.1 != t && x.0 != a && x.1 != b;
    SubsetMatches(m, rest, preds, trues, tolerance);
    assert b !in matched;
    PairIsClose(m, preds, trues, tolerance, (i, b));
    PairIsClose(m, preds, trues, tolerance, (a, t));
    assert preds[i] <= preds[a];
    hide IsMatching;
    AddPair(rest, a, b, preds, trues, tolerance);
    r := rest + {(a, b)};
  }

  lemma Without(m: set<(nat, nat)>, x: (nat, nat), preds: seq<int>, trues: seq<int>, tolerance: int,
                matched: set<nat>, i: nat, t: nat)
    requires IsMatching(m, preds, trues, tolerance) && Open(m, i, matched) && x in m
    requires forall y :: y in m && (y.0 == i || y.1 == t) ==> y == x
    ensures IsMatching(m - {x}, preds, trues, tolerance) && Open(m - {x}, i + 1, matched + {t})
    ensures |m| == |m - {x}| + 1
  {}

  /** Exchange: whatever prediction `i` and its first fit are paired with, one pair fewer covers
      the rest. */
  lemma Exchange(m: set<(nat, nat)>, preds: seq<int>, trues: seq<int>, tolerance: int, matched: set<nat>, i: nat)
    returns (r: set<(nat, nat)>)
    requires NoCloseInversion(preds, tolerance) && NoCloseInversion(trues, tolerance)
    requires IsMatching(m, preds, trues, tolerance) && Open(m, i, matched)
    requires i < |preds| && FirstFitFrom(trues, preds[i], tolerance, matched, 0) < |trues|
    ensures var t := FirstFitFrom(trues, preds[i], tolerance, matched, 0);
            && IsMatching(r, preds, trues, tolerance) && Open(r, i + 1, matched + {t})
            && |m| <= |r| + 1
  {
    var t := FirstFitFrom(trues, preds[i], tolerance, matched, 0);
    if x :| x in m && x.0 == i {
      if y :| y in m && y.1 == t && y.0 != i {
        FirstFitMeaning(trues, preds[i], tolerance, matched, 0);
        FirstFitIsSmallest(trues, preds[i], tolerance, matched, x.1);
        r := SwapPartners(m, preds, trues, tolerance, matched, i, t, y.0, x.1);
      } else {
        r := m - {x};
        Without(m, x, preds, trues, tolerance, matched, i, t);
      }
    } else if y :| y in m && y.1 == t {
      r := m - {y};
      Without(m, y, preds, trues, tolerance, matched, i, t);
    } else {
      r := m;
    }
  }

  /** Without close inversions no matching beats the greedy loop. */
  lemma {:induction false} GreedyIsMaximal(m: set<(nat, nat)>, preds: seq<int>, trues: seq<int>, tolerance: int,
                                           i: nat, matched: set<nat>)
    requires NoCloseInversion(preds, tolerance) && NoCloseInversion(trues, tolerance)
    requires IsMatching(m, preds, trues, tolerance) && Open(m, i, matched)
    ensures |m| <= Greedy(preds, trues, tolerance, i, matched)
    decreases |preds| - i
  {
    if i >= |preds| {
      assert m == {};
    } else {
      var t := FirstFitFrom(trues, preds[i], tolerance, matched, 0);
      if t < |trues| {
        var r := Exchange(m, preds, trues, tolerance, matched, i);
        GreedyIsMaximal(r, preds, trues, tolerance, i + 1, matched + {t});
      } else {
        forall x | x in m ensures i + 1 <= x.0 {
          FirstFitMeaning(trues, preds[i], tolerance, matched, 0);
        }
        GreedyIsMaximal(m, preds, trues, tolerance, i + 1, matched);
      }
    }
  }

  ghost predicate IsLargest(n: nat, preds: seq<int>, trues: seq<int>, tolerance: int) {
    && (exists m: set<(nat, nat)> :: IsMatching(m, preds, trues, tolerance) && |m| == n)
    && (forall m: set<(nat, nat)> :: IsMatching(m, preds, trues, tolerance) ==> |m| <= n)
  }

  /** The count is that of a matching, and without close inversions, in ascending lists above
      all, no matching is larger. */
  lemma GreedyIsOptimal(preds: seq<int>, trues: seq<int>, tolerance: int)
    ensures exists m: set<(nat, nat)> ::
      IsMatching(m, preds, trues, tolerance) && |m| == Greedy(preds, trues, tolerance, 0, {})
    ensures NoCloseInversion(preds, tolerance) && NoCloseInversion(trues, tolerance) ==>
      IsLargest(Greedy(preds, trues, tolerance, 0, {}), preds, trues, tolerance)
    ensures Ascending(preds) && Ascending(trues) ==>
      IsLargest(Greedy(preds, trues, tolerance, 0, {}), preds, trues, tolerance)
  {
    var greedy := GreedyMatches(preds, trues, tolerance, 0, {});
    if NoCloseInversion(preds, tolerance) && NoCloseInversion(trues, tolerance) {
      forall m: set<(nat, nat)> | IsMatching(m, preds, trues, tolerance) ensures |m| <= |greedy| {
        GreedyIsMaximal(m, preds, trues, tolerance, 0, {});
      }
    }
  }

  // ---------------------------------------------------------------- when it is not

  /** The truths close to `p` below `n` that are not matched. */
  ghost function Fits(trues: seq<int>, p: int, tolerance: int, matched: set<nat>, n: nat): set<nat>
    requires n <= |trues|
  {
    set t: nat | t < n && t !in matched && Close(p, trues[t], tolerance)
  }

  function Copies(p: int, n: nat): (s: seq<int>)
    ensures |s| == n && forall i :: 0 <= i < n ==> s[i] == p
  {
    seq(n, i => p)
  }

  lemma {:induction false} GreedyRest(p: int, rest: seq<int>, trues: seq<int>, tolerance: int, i: nat, matched: set<nat>)
    ensures Greedy([p] + rest, trues, tolerance, i + 1, matched) == Greedy(rest, trues, tolerance, i, matched)
    decreases |rest| - i
  {
    if i < |rest| {
      var t := FirstFitFrom(trues, rest[i], tolerance, matched, 0);
      GreedyRest(p, rest, trues, tolerance, i + 1, if t < |trues| then matched + {t} else matched);
    }
  }

  lemma FirstOfFits(trues: seq<int>, p: int, tolerance: int, matched: set<nat>, n: nat)
    requires n <= |trues| && Fits(trues, p, tolerance, matched, n) != {}
    ensures var t := FirstFitFrom(trues, p, tolerance, matched, 0);
            && t < n && t in Fits(trues, p, tolerance, matched, n)
            && Fits(trues, p, tolerance, matched + {t}, n) == Fits(trues, p, tolerance, matched, n) - {t}
  {
    FirstFitMeaning(trues, p, tolerance, matched, 0);
    var b :| b in Fits(trues, p, tolerance, matched, n);
  }

  /** As many copies of `p` as truths below `n` fit it take exactly those. */
  lemma {:induction false} CopiesTake(trues: seq<int>, p: int, tolerance: int, matched: set<nat>, n: nat, rest: seq<int>)
    requires n <= |trues|
    ensures var fits := Fits(trues, p, tolerance, matched, n);
            Greedy(Copies(p, |fits|) + rest, trues, tolerance, 0, matched)
            == |fits| + Greedy(rest, trues, tolerance, 0, matched + fits)
    decreases |Fits(trues, p, tolerance, matched, n)|
  {
    hide Fits, Copies, FirstFitFrom;
    var fits := Fits(trues, p, tolerance, matched, n);
    var preds := Copies(p, |fits|) + rest;
    if fits == {} {
      assert preds == rest && matched + fits == matched;
    } else {
      var t := FirstFitFrom(trues, p, tolerance, matched, 0);
      FirstOfFits(trues, p, tolerance, matched, n);
      var fewer := fits - {t};
      CopiesTake(trues, p, tolerance, matched + {t}, n, rest);
      OneCopy(p, |fits|, rest);
      GreedyRest(p, Copies(p, |fewer|) + rest, trues, tolerance, 0, matched + {t});
      assert matched + {t} + fewer == matched + fits;
    }
  }

  lemma OneCopy(p: int, n: nat, rest: seq<int>)
    requires n > 0
    ensures Copies(p, n) + rest == [p] + (Copies(p, n - 1) + rest)
  {}

  /** Predictions `[from, from + |s|)`, all equal and close to every truth of `s`, can be paired
      with them. */
  lemma {:induction false} PairUp(preds: seq<int>, p: int, trues: seq<int>, tolerance: int, from: nat, s: set<nat>)
    returns (m: set<(nat, nat)>)
    requires from + |s| <= |preds| && forall x :: from <= x < from + |s| ==> preds[x] == p
    requires forall t :: t in s ==> t < |trues| && Close(p, trues[t], tolerance)
    ensures IsMatching(m, preds, trues, tolerance) && |m| == |s|
    ensures forall x :: x in m ==> from <= x.0 < from + |s| && x.1 in s
    decreases |s|
  {
    if s == {} {
      m := {};
    } else {
      var t :| t in s;
      m := PairUp(preds, p, trues, tolerance, from, s - {t});
      AddPair(m, from + |s| - 1, t, preds, trues, tolerance);
      m := m + {(from + |s| - 1, t)};
    }
  }

  /** Two matchings without a common boundary make one. */
  lemma UnionMatches(m: set<(nat, nat)>, n: set<(nat, nat)>, preds: seq<int>, trues: seq<int>, tolerance: int)
    requires IsMatching(m, preds, trues, tolerance) && IsMatching(n, preds, trues, tolerance)
    requires forall x, y :: x in m && y in n ==> x.0 != y.0 && x.1 != y.1
    ensures IsMatching(m + n, preds, trues, tolerance) && |m + n| == |m| + |n|
  {
    assert m !! n;
  }

  /** Two predictions, each repeated: the larger end of what fits the smaller of two inverted
      truths, as often as truths up to the first of them fit it; then the larger end of what
      fits the other, once more than further truths fit it. */
  ghost function Trap(trues: seq<int>, tolerance: int, i: nat, j: nat): seq<int>
    requires i < |trues| && j < |trues|
  {
    Copies(trues[j] + tolerance, |TrapFirst(trues, tolerance, i, j)|)
    + Copies(trues[i] + tolerance, |TrapSecond(trues, tolerance, i, j)| + 1)
  }

  ghost function TrapFirst(trues: seq<int>, tolerance: int, i: nat, j: nat): set<nat>
    requires i < |trues| && j < |trues|
  {
    Fits(trues, trues[j] + tolerance, tolerance, {}, i + 1)
  }

  ghost function TrapSecond(trues: seq<int>, tolerance: int, i: nat, j: nat): set<nat>
    requires i < |trues| && j < |trues|
  {
    Fits(trues, trues[i] + tolerance, tolerance, TrapFirst(trues, tolerance, i, j), |trues|)
  }

  lemma NoneIsLeft(trues: seq<int>, q: int, tolerance: int, matched: set<nat>)
    ensures Greedy([q], trues, tolerance, 0, matched + Fits(trues, q, tolerance, matched, |trues|)) == 0
  {
    var all := matched + Fits(trues, q, tolerance, matched, |trues|);
    FirstFitMeaning(trues, q, tolerance, all, 0);
  }

  lemma TrapCount(trues: seq<int>, tolerance: int, i: nat, j: nat)
    requires i < |trues| && j < |trues|
    ensures var preds := Trap(trues, tolerance, i, j);
            Greedy(preds, trues, tolerance, 0, {}) == |preds| - 1
  {
    hide Fits, Greedy, Copies;
    var p, q := trues[j] + tolerance, trues[i] + tolerance;
    var first, second := TrapFirst(trues, tolerance, i, j), TrapSecond(trues, tolerance, i, j);
    CopiesTake(trues, p, tolerance, {}, i + 1, Copies(q, |second| + 1));
    assert {} + first == first;
    CopiesTake(trues, q, tolerance, first, |trues|, [q]);
    assert Copies(q, |second| + 1) == Copies(q, |second|) + [q];
    NoneIsLeft(trues, q, tolerance, first);
  }

  lemma SwapOne(s: set<nat>, i: nat, j: nat)
    requires i in s && j !in s
    ensures |s - {i} + {j}| == |s|
  {}

  /** The first kind can leave `i` to the second and take `j`. */
  lemma TrapSets(trues: seq<int>, tolerance: int, i: nat, j: nat)
    requires i < j < |trues| && 0 < trues[i] - trues[j] <= 2 * tolerance
    ensures var first, second := TrapFirst(trues, tolerance, i, j), TrapSecond(trues, tolerance, i, j);
            && i in first && j !in first && i !in second && j !in second && first !! second
            && (forall t :: t in first || t == j ==> t < |trues| && Close(trues[j] + tolerance, trues[t], tolerance))
            && (forall t :: t in second || t == i ==> t < |trues| && Close(trues[i] + tolerance, trues[t], tolerance))
  {}

  lemma TrapFits(trues: seq<int>, tolerance: int, i: nat, j: nat) returns (m: set<(nat, nat)>)
    requires i < j < |trues| && 0 < trues[i] - trues[j] <= 2 * tolerance
    ensures IsMatching(m, Trap(trues, tolerance, i, j), trues, tolerance)
    ensures |m| == |Trap(trues, tolerance, i, j)|
  {
    TrapSets(trues, tolerance, i, j);
    hide IsMatching, Close, TrapFirst, TrapSecond;
    var preds := Trap(trues, tolerance, i, j);
    var first, second := TrapFirst(trues, tolerance, i, j), TrapSecond(trues, tolerance, i, j);
    var a, b := first - {i} + {j}, second + {i};
    SwapOne(first, i, j);
    m := PairUp(preds, trues[j] + tolerance, trues, tolerance, 0, a);
    var n := PairUp(preds, trues[i] + tolerance, trues, tolerance, |a|, b);
    UnionMatches(m, n, preds, trues, tolerance);
    m := m + n;
  }

  /** The loop is optimal for every list of predictions without close inversions, or for every
      ascending one, exactly when the true boundaries have none. */
  lemma OptimalForTruesIff(trues: seq<int>, tolerance: int)
    ensures NoCloseInversion(trues, tolerance)
       <==> forall preds :: NoCloseInversion(preds, tolerance) ==>
              IsLargest(Greedy(preds, trues, tolerance, 0, {}), preds, trues, tolerance)
    ensures NoCloseInversion(trues, tolerance)
       <==> forall preds :: Ascending(preds) ==>
              IsLargest(Greedy(preds, trues, tolerance, 0, {}), preds, trues, tolerance)
  {
    if NoCloseInversion(trues, tolerance) {
      forall preds | NoCloseInversion(preds, tolerance)
        ensures IsLargest(Greedy(preds, trues, tolerance, 0, {}), preds, trues, tolerance)
      {
        GreedyIsOptimal(preds, trues, tolerance);
      }
    } else {
      var i, j :| 0 <= i < j < |trues| && !(trues[i] <= trues[j] || trues[i] - trues[j] > 2 * tolerance);
      var preds := Trap(trues, tolerance, i, j);
      TrapCount(trues, tolerance, i, j);
      var m := TrapFits(trues, tolerance, i, j);
      assert Ascending(preds) && NoCloseInversion(preds, tolerance);
    }
  }

  // ---------------------------------------------------------------- predictions out of order

  ghost function Until(preds: seq<int>, x: int, tolerance: int, i: nat): set<nat>
    requires i < |preds|
  {
    set k: nat | k <= i && Close(preds[k], x, tolerance)
  }

  ghost function Others(preds: seq<int>, y: int, tolerance: int, first: set<nat>): set<nat> {
    set k: nat | k < |preds| && k !in first && Close(preds[k], y, tolerance)
  }

  /** The mirror image: the smallest truth that fits the larger of two inverted predictions, as
      often as predictions up to it fit it, and the largest, once more than others fit it. */
  ghost function Bait(preds: seq<int>, tolerance: int, i: nat): seq<int>
    requires i < |preds|
  {
    var x, y := preds[i] - tolerance, preds[i] + tolerance;
    var first := Until(preds, x, tolerance, i);
    Copies(x, |first|) + Copies(y, |Others(preds, y, tolerance, first)| + 1)
  }

  ghost function FreeBelow(n: nat, matched: set<nat>): set<nat> {
    set t: nat | t < n && t !in matched
  }

  ghost function From(s: set<nat>, k: nat): set<nat> {
    set e | e in s && e >= k
  }

  lemma FromStep(s: set<nat>, k: nat)
    ensures |From(s, k)| == |From(s, k + 1)| + (if k in s then 1 else 0)
  {
    if k in s {
      assert From(s, k) == From(s, k + 1) + {k};
    } else {
      assert From(s, k) == From(s, k + 1);
    }
  }

  lemma FreeStep(n: nat, matched: set<nat>, t: nat)
    requires t !in matched
    ensures |FreeBelow(n, matched + {t})| == |FreeBelow(n, matched)| - (if t < n then 1 else 0)
  {
    if t < n {
      assert FreeBelow(n, matched) == FreeBelow(n, matched + {t}) + {t};
    } else {
      assert FreeBelow(n, matched) == FreeBelow(n, matched + {t});
    }
  }

  lemma {:induction false} AllFree(n: nat)
    ensures |FreeBelow(n, {})| == n
  {
    if n > 0 {
      AllFree(n - 1);
      assert FreeBelow(n, {}) == FreeBelow(n - 1, {}) + {n - 1};
    } else {
      assert FreeBelow(0, {}) == {};
    }
  }

  /** While predictions up to `i` that fit the small truths find them free, only the others can
      take a large one. */
  lemma {:induction false} BaitBound(preds: seq<int>, trues: seq<int>, tolerance: int, i: nat, k: nat, matched: set<nat>,
                                     first: set<nat>, others: set<nat>)
    requires i < |preds| && trues == Bait(preds, tolerance, i)
    requires first == Until(preds, preds[i] - tolerance, tolerance, i)
    requires others == Others(preds, preds[i] + tolerance, tolerance, first)
    requires |From(first, k)| <= |FreeBelow(|first|, matched)|
    ensures Greedy(preds, trues, tolerance, k, matched) <= |FreeBelow(|first|, matched)| + |From(others, k)|
    decreases |preds| - k
  {
    if k < |preds| {
      var t := FirstFitFrom(trues, preds[k], tolerance, matched, 0);
      FirstFitMeaning(trues, preds[k], tolerance, matched, 0);
      FromStep(first, k);
      FromStep(others, k);
      BaitTaken(preds, trues, tolerance, i, k, matched, first, others);
      if t < |trues| {
        FreeStep(|first|, matched, t);
        BaitBound(preds, trues, tolerance, i, k + 1, matched + {t}, first, others);
      } else {
        BaitBound(preds, trues, tolerance, i, k + 1, matched, first, others);
      }
    }
  }

  lemma BaitTaken(preds: seq<int>, trues: seq<int>, tolerance: int, i: nat, k: nat, matched: set<nat>,
                  first: set<nat>, others: set<nat>)
    requires i < |preds| && k < |preds| && trues == Bait(preds, tolerance, i)
    requires first == Until(preds, preds[i] - tolerance, tolerance, i)
    requires others == Others(preds, preds[i] + tolerance, tolerance, first)
    requires |From(first, k)| <= |FreeBelow(|first|, matched)|
    ensures var t := FirstFitFrom(trues, preds[k], tolerance, matched, 0);
            && (k in first ==> t < |first|)
            && (t < |first| && k !in first ==> From(first, k + 1) == {})
            && (|first| <= t < |trues| ==> k in others)
  {
    FirstFitMeaning(trues, preds[k], tolerance, matched, 0);
    if k in first {
      assert k in From(first, k);
      if FreeBelow(|first|, matched) != {} {
        var b :| b in FreeBelow(|first|, matched);
        assert trues[b] == preds[i] - tolerance;
      }
    }
  }

  /** Truths `[from, from + |s|)`, all equal and close to every prediction of `s`, can be paired
      with them. */
  lemma {:induction false} PairUpTrues(preds: seq<int>, trues: seq<int>, p: int, tolerance: int, from: nat, s: set<nat>)
    returns (m: set<(nat, nat)>)
    requires from + |s| <= |trues| && forall x :: from <= x < from + |s| ==> trues[x] == p
    requires forall k :: k in s ==> k < |preds| && Close(preds[k], p, tolerance)
    ensures IsMatching(m, preds, trues, tolerance) && |m| == |s|
    ensures forall x :: x in m ==> x.0 in s && from <= x.1 < from + |s|
    decreases |s|
  {
    if s == {} {
      m := {};
    } else {
      var k :| k in s;
      m := PairUpTrues(preds, trues, p, tolerance, from, s - {k});
      AddPair(m, k, from + |s| - 1, preds, trues, tolerance);
      m := m + {(k, from + |s| - 1)};
    }
  }

  lemma BaitSets(preds: seq<int>, tolerance: int, i: nat, j: nat)
    requires i < j < |preds| && 0 < preds[i] - preds[j] <= 2 * tolerance
    ensures var first := Until(preds, preds[i] - tolerance, tolerance, i);
            var others := Others(preds, preds[i] + tolerance, tolerance, first);
            && i in first && j !in first && i !in others && j !in others && first !! others
            && (forall k :: k in first || k == j ==> k < |preds| && Close(preds[k], preds[i] - tolerance, tolerance))
            && (forall k :: k in others || k == i ==> k < |preds| && Close(preds[k], preds[i] + tolerance, tolerance))
  {}

  lemma BaitFits(preds: seq<int>, tolerance: int, i: nat, j: nat) returns (m: set<(nat, nat)>)
    requires i < j < |preds| && 0 < preds[i] - preds[j] <= 2 * tolerance
    ensures IsMatching(m, preds, Bait(preds, tolerance, i), tolerance)
    ensures |m| == |Bait(preds, tolerance, i)|
  {
    BaitSets(preds, tolerance, i, j);
    hide IsMatching, Close, Until, Others;
    var trues := Bait(preds, tolerance, i);
    var first := Until(preds, preds[i] - tolerance, tolerance, i);
    var others := Others(preds, preds[i] + tolerance, tolerance, first);
    var a, b := first - {i} + {j}, others + {i};
    SwapOne(first, i, j);
    m := PairUpTrues(preds, trues, preds[i] - tolerance, tolerance, 0, a);
    var n := PairUpTrues(preds, trues, preds[i] + tolerance, tolerance, |a|, b);
    UnionMatches(m, n, preds, trues, tolerance);
    m := m + n;
  }

  lemma BaitCount(preds: seq<int>, tolerance: int, i: nat)
    requires i < |preds|
    ensures var trues := Bait(preds, tolerance, i);
            Greedy(preds, trues, tolerance, 0, {}) < |trues|
  {
    var first := Until(preds, preds[i] - tolerance, tolerance, i);
    var others := Others(preds, preds[i] + tolerance, tolerance, first);
    AllFree(|first|);
    assert From(first, 0) == first && From(others, 0) == others;
    BaitBound(preds, Bait(preds, tolerance, i), tolerance, i, 0, {}, first, others);
  }

  /** The loop is optimal for every list of true boundaries without close inversions, or for
      every ascending one, exactly when the predictions have none. */
  lemma OptimalForPredsIff(preds: seq<int>, tolerance: int)
    ensures NoCloseInversion(preds, tolerance)
       <==> forall trues :: NoCloseInversion(trues, tolerance) ==>
              IsLargest(Greedy(preds, trues, tolerance, 0, {}), preds, trues, tolerance)
    ensures NoCloseInversion(preds, tolerance)
       <==> forall trues :: Ascending(trues) ==>
              IsLargest(Greedy(preds, trues, tolerance, 0, {}), preds, trues, tolerance)
  {
    if NoCloseInversion(preds, tolerance) {
      forall trues | NoCloseInversion(trues, tolerance)
        ensures IsLargest(Greedy(preds, trues, tolerance, 0, {}), preds, trues, tolerance)
      {
        GreedyIsOptimal(preds, trues, tolerance);
      }
    } else {
      var i, j :| 0 <= i < j < |preds| && !(preds[i] <= preds[j] || preds[i] - preds[j] > 2 * tolerance);
      var trues := Bait(preds, tolerance, i);
      BaitCount(preds, tolerance, i);
      var m := BaitFits(preds, tolerance, i, j);
      assert Ascending(trues) && NoCloseInversion(trues, tolerance);
    }
  }

  /** The pairing loop. */
  method CountMatched(preds: seq<int>, trues: seq<int>, tolerance: int) returns (tp: nat)
    ensures tp == Greedy(preds, trues, tolerance, 0, {})
  {
    var matchedTrue: set<nat>, matchedPred: set<nat> := {}, {};
    for i := 0 to |preds|
      invariant forall p :: p in matchedPred ==> p < i
      invariant |matchedPred| + Greedy(preds, trues, tolerance, i, matchedTrue) == Greedy(preds, trues, tolerance, 0, {})
    {
      var ti := FirstFit(trues, preds[i], tolerance, matchedTrue);
      if ti < |trues| {
        matchedTrue := matchedTrue + {ti};
        matchedPred := matchedPred + {i};
      }
    }
    return |matchedPred|;
  }

  /** Order matters: with predictions out of order the greedy loop can miss a pair. */
  lemma UnsortedCanMiss()
    ensures var preds, trues := [1, 0], [0, 2];
            && IsMatching({(0, 1), (1, 0)}, preds, trues, 1)
            && |{(0, 1), (1, 0)}| == 2
            && Greedy(preds, trues, 1, 0, {}) == 1
  {
    var preds, trues := [1, 0], [0, 2];
    assert FirstFitFrom(trues, 1, 1, {}, 0) == 0;
    assert {} + {0} == {0 as nat};
    assert FirstFitFrom(trues, 0, 1, {0}, 1) == 2;
    assert Greedy(preds, trues, 1, 1, {0}) == 0;
  }

  // ---------------------------------------------------------------- the scores

  datatype Scores = Scores(precision: real, recall: real, f1: real)

  const SMALLEST := 0.0000000001

  function RawF1(precision: real, recall: real): real {
    var sum := precision + recall;
    2.0 * precision * recall / (if sum > SMALLEST then sum else SMALLEST)
  }

  function ScoresOf(tp: nat, preds: nat, trues: nat): Scores {
    if trues == 0 && preds == 0 then Scores(1.0, 1.0, 1.0)
    else if trues == 0 then Scores(0.0, 1.0, 0.0)
    else if preds == 0 then Scores(1.0, 0.0, 0.0)
    else
      var precision, recall := tp as real / preds as real, tp as real / trues as real;
      Scores(Round4(precision), Round4(recall), Round4(RawF1(precision, recall)))
  }

  /** The scores of `tp` pairs: precision is their share of the predictions, recall of the true
      boundaries, F1 twice the pairs over both, all to four decimals. */
  lemma ScoresMeaning(tp: nat, preds: nat, trues: nat)
    requires preds > 0 && trues > 0
    requires tp > 0 ==> tp as real / preds as real + tp as real / trues as real > SMALLEST
    ensures var s := ScoresOf(tp, preds, trues);
            && -0.00005 <= s.precision - tp as real / preds as real <= 0.00005
            && -0.00005 <= s.recall - tp as real / trues as real <= 0.00005
            && -0.00005 <= s.f1 - 2.0 * tp as real / (preds + trues) as real <= 0.00005
  {
    Round4Error(tp as real / preds as real);
    Round4Error(tp as real / trues as real);
    Round4Error(RawF1(tp as real / preds as real, tp as real / trues as real));
    F1IsDice(tp, preds, trues);
  }

  /** Without boundaries on either side everything is found; without them on one side nothing
      is, and what there is to be wrong about is wrong. */
  lemma EmptyScores(tp: nat, n: nat)
    requires n > 0
    ensures ScoresOf(tp, 0, 0) == Scores(1.0, 1.0, 1.0)
    ensures ScoresOf(tp, n, 0) == Scores(0.0, 1.0, 0.0)
    ensures ScoresOf(tp, 0, n) == Scores(1.0, 0.0, 0.0)
  {}

  /** Precision, recall and F1 of the greedy pairing; where it is optimal, of a largest one. */
  method BoundaryF1(trues: seq<int>, preds: seq<int>, tolerance: int) returns (s: Scores)
    ensures s == ScoresOf(Greedy(preds, trues, tolerance, 0, {}), |preds|, |trues|)
    ensures NoCloseInversion(preds, tolerance) && NoCloseInversion(trues, tolerance) ==>
      exists n :: IsLargest(n, preds, trues, tolerance) && s == ScoresOf(n, |preds|, |trues|)
  {
    var tp := CountMatched(preds, trues, tolerance);
    GreedyIsOptimal(preds, trues, tolerance);
    return ScoresOf(tp, |preds|, |trues|);
  }

  /** Unrounded, the score is twice the matched pairs over all boundaries, as long as the
      lists are not so long that the guard against division by zero takes over. */
  lemma F1IsDice(tp: nat, preds: nat, trues: nat)
    requires preds > 0 && trues > 0
    requires tp > 0 ==> tp as real / preds as real + tp as real / trues as real > SMALLEST
    ensures RawF1(tp as real / preds as real, tp as real / trues as real) == 2.0 * tp as real / (preds + trues) as real
  {
    var x, p, t := tp as real, preds as real, trues as real;
    if tp > 0 {
      Harmonic(x, p, t);
    }
  }

  lemma Harmonic(x: real, p: real, t: real)
    requires x > 0.0 && p > 0.0 && t > 0.0
    ensures x / p + x / t > 0.0
    ensures 2.0 * (x / p) * (x / t) / (x / p + x / t) == 2.0 * x / (p + t)
  {
    var a, b := x / p, x / t;
    assert a * p == x && b * t == x;
    assert a > 0.0 && b > 0.0;
    assert (a * b) * (p + t) == x * (a + b) by {
      assert (a * b) * p == b * (a * p) == b * x;
      assert (a * b) * t == a * (b * t) == a * x;
    }
    var lhs := 2.0 * a * b / (a + b);
    assert lhs * (a + b) == 2.0 * (a * b);
    assert lhs * (a + b) * (p + t) == 2.0 * x * (a + b);
    assert lhs * (p + t) == 2.0 * x;
  }
}
