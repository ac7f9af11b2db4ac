/** Sizes of finite sets. */
module Sets {

  lemma {:induction false} SubsetSize<T>(s: set<T>, t: set<T>)
    requires s <= t
    ensures |s| <= |t|
    ensures |s| == |t| ==> s == t
  {
    if s != {} {
      var x :| x in s;
      SubsetSize(s - {x}, t - {x});
    }
  }

  /** The integers of `[lo, hi)`. */
  ghost function Interval(lo: int, hi: int): (s: set<int>)
    ensures forall x :: x in s <==> lo <= x < hi
    ensures |s| == if lo < hi then hi - lo else 0
    decreases hi - lo
  {
    if lo < hi then Interval(lo, hi - 1) + {hi - 1} else {}
  }

  /** Two sets counted without the overlap give the union. */
  lemma SplitInTwo<T>(a: set<T>, b: set<T>)
    ensures |a| + |b - a| == |a + b|
  {
    assert a + b == a + (b - a);
  }

  /** Three sets, each counted without the ones that take precedence over it. */
  lemma SplitInThree<T>(a: set<T>, b: set<T>, c: set<T>)
    ensures |a| + |b - a - c| + |c - a| == |a + b + c|
  {
    SplitInTwo(a, c);
    SplitInTwo(a + c, b);
    assert b - (a + c) == b - a - c;
    assert a + c + b == a + b + c;
  }
}
