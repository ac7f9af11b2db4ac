/** Stable sorting by a total preorder, as the language's own sort does it. */
module Sorting {

  ghost predicate TotalPreorder<T(!new)>(le: (T, T) -> bool) {
    && (forall x, y :: le(x, y) || le(y, x))
    && (forall x, y, z :: le(x, y) && le(y, z) ==> le(x, z))
  }

  ghost predicate SortedBy<T(!new)>(s: seq<T>, le: (T, T) -> bool) {
    forall i, j :: 0 <= i < j < |s| ==> le(s[i], s[j])
  }

  function Insert<T>(x: T, s: seq<T>, le: (T, T) -> bool): (r: seq<T>)
    ensures multiset(r) == multiset{x} + multiset(s)
    ensures |r| == |s| + 1
  {
    if s == [] || le(x, s[0]) then
      [x] + s
    else
      assert s == [s[0]] + s[1..];
      [s[0]] + Insert(x, s[1..], le)
  }

  function Sort<T>(s: seq<T>, le: (T, T) -> bool): (r: seq<T>)
    ensures multiset(r) == multiset(s)
    ensures |r| == |s|
  {
    if s == [] then
      []
    else
      assert s == [s[0]] + s[1..];
      Insert(s[0], Sort(s[1..], le), le)
  }

  lemma {:induction false} InsertSorts<T(!new)>(x: T, s: seq<T>, le: (T, T) -> bool)
    requires TotalPreorder(le) && SortedBy(s, le)
    ensures SortedBy(Insert(x, s, le), le)
  {
    if s != [] && !le(x, s[0]) {
      var rest := Insert(x, s[1..], le);
      InsertSorts(x, s[1..], le);
      forall i | 0 <= i < |rest| ensures le(s[0], rest[i]) {
        assert rest[i] in multiset(rest);
        assert rest[i] == x || rest[i] in s[1..];
      }
    } else if s != [] {
      forall i | 0 <= i < |s| ensures le(x, s[i]) {
        assert i > 0 ==> le(s[0], s[i]);
      }
    }
  }

  lemma {:induction false} SortSorts<T(!new)>(s: seq<T>, le: (T, T) -> bool)
    requires TotalPreorder(le)
    ensures SortedBy(Sort(s, le), le)
  {
    if s != [] {
      SortSorts(s[1..], le);
      InsertSorts(s[0], Sort(s[1..], le), le);
    }
  }

  /** Somewhere in `s`, `x` stands before `y`. */
  ghost predicate Before<T(!new)>(s: seq<T>, x: T, y: T) {
    exists i, j :: 0 <= i < j < |s| && s[i] == x && s[j] == y
  }

  /** Elements of `r` that rank alike stand in the order they have in `s`. */
  ghost predicate KeepsTies<T(!new)>(s: seq<T>, r: seq<T>, le: (T, T) -> bool) {
    forall i, j :: 0 <= i < j < |r| && le(r[j], r[i]) ==> Before(s, r[i], r[j])
  }

  lemma BeforeCons<T(!new)>(e: T, s: seq<T>, x: T, y: T)
    ensures Before([e] + s, x, y) <==> (x == e && y in s) || Before(s, x, y)
  {
    var t := [e] + s;
    if Before(t, x, y) {
      var i, j :| 0 <= i < j < |t| && t[i] == x && t[j] == y;
      assert t[j] == s[j - 1] && (i > 0 ==> t[i] == s[i - 1]);
    }
    if Before(s, x, y) {
      var i, j :| 0 <= i < j < |s| && s[i] == x && s[j] == y;
      assert t[i + 1] == x && t[j + 1] == y;
    }
    if x == e && y in s {
      var j :| 0 <= j < |s| && s[j] == y;
      assert t[0] == x && t[j + 1] == y;
    }
  }

  lemma ConsKeepsTies<T(!new)>(s: seq<T>, x: T, rest: seq<T>, le: (T, T) -> bool)
    requires KeepsTies(s, rest, le)
    requires forall j :: 0 <= j < |rest| && le(rest[j], x) ==> Before(s, x, rest[j])
    ensures KeepsTies(s, [x] + rest, le)
  {
    hide Before;
    var r := [x] + rest;
    assert forall i :: 0 < i < |r| ==> r[i] == rest[i - 1];
  }

  lemma {:induction false} InsertKeepsTies<T(!new)>(e: T, s: seq<T>, r: seq<T>, le: (T, T) -> bool)
    requires KeepsTies(s, r, le) && SortedBy(r, le) && TotalPreorder(le)
    requires forall i :: 0 <= i < |r| ==> r[i] in s
    ensures KeepsTies([e] + s, Insert(e, r, le), le)
  {
    hide Before, TotalPreorder;
    if r == [] || le(e, r[0]) {
      forall i, j | 0 <= i < j < |r| && le(r[j], r[i]) ensures Before([e] + s, r[i], r[j]) {
        BeforeCons(e, s, r[i], r[j]);
      }
      forall j | 0 <= j < |r| ensures Before([e] + s, e, r[j]) {
        BeforeCons(e, s, e, r[j]);
      }
      ConsKeepsTies([e] + s, e, r, le);
    } else {
      var tail := r[1..];
      var rest := Insert(e, tail, le);
      assert forall i :: 0 <= i < |tail| ==> tail[i] == r[i + 1];
      InsertKeepsTies(e, s, tail, le);
      forall j | 0 <= j < |rest| && le(rest[j], r[0]) ensures Before([e] + s, r[0], rest[j]) {
        assert rest[j] in multiset(rest);
        assert rest[j] in tail;
        var k :| 0 <= k < |tail| && tail[k] == rest[j];
        assert Before(s, r[0], r[k + 1]);
        BeforeCons(e, s, r[0], rest[j]);
      }
      ConsKeepsTies([e] + s, r[0], rest, le);
    }
  }

  /** The sort is stable. */
  lemma {:induction false} SortIsStable<T(!new)>(s: seq<T>, le: (T, T) -> bool)
    requires TotalPreorder(le)
    ensures KeepsTies(s, Sort(s, le), le)
  {
    if s != [] {
      var rest := Sort(s[1..], le);
      SortIsStable(s[1..], le);
      SortSorts(s[1..], le);
      forall i | 0 <= i < |rest| ensures rest[i] in s[1..] {
        SortKeepsMembers(s[1..], le, rest[i]);
      }
      InsertKeepsTies(s[0], s[1..], rest, le);
      assert s == [s[0]] + s[1..];
    }
  }

  lemma SortKeepsMembers<T>(s: seq<T>, le: (T, T) -> bool, x: T)
    ensures x in Sort(s, le) <==> x in s
  {
    assert x in s <==> x in multiset(s);
    assert x in Sort(s, le) <==> x in multiset(Sort(s, le));
  }

  ghost predicate Distinct<T>(s: seq<T>) {
    forall i, j :: 0 <= i < j < |s| ==> s[i] != s[j]
  }

  lemma DistinctCons<T>(x: T, s: seq<T>)
    ensures Distinct([x] + s) <==> x !in s && Distinct(s)
  {
    var t := [x] + s;
    assert forall i :: 0 <= i < |s| ==> t[i + 1] == s[i];
    if Distinct(t) {
      forall i | 0 <= i < |s| ensures s[i] != x {
        assert t[0] != t[i + 1];
      }
      forall i, j | 0 <= i < j < |s| ensures s[i] != s[j] {
        assert t[i + 1] != t[j + 1];
      }
    }
  }

  lemma {:induction false} DistinctByCounting<T>(s: seq<T>)
    ensures Distinct(s) <==> forall x :: x in s ==> multiset(s)[x] == 1
  {
    if s != [] {
      var init, last := s[..|s| - 1], s[|s| - 1];
      assert s == init + [last];
      DistinctByCounting(init);
      if Distinct(s) {
        assert Distinct(init);
        assert last !in init;
      } else {
        if !Distinct(init) {
          var x :| x in init && multiset(init)[x] != 1;
          assert x in s && multiset(s)[x] >= multiset(init)[x] > 1;
        } else {
          var i, j :| 0 <= i < j < |s| && s[i] == s[j];
          assert j == |s| - 1 && init[i] == last;
          assert multiset(init)[last] >= 1 && multiset(s)[last] >= 2;
        }
      }
    }
  }

  lemma SortKeepsDistinct<T>(s: seq<T>, le: (T, T) -> bool)
    requires Distinct(s)
    ensures Distinct(Sort(s, le))
  {
    DistinctByCounting(s);
    DistinctByCounting(Sort(s, le));
    forall x | x in Sort(s, le) ensures multiset(Sort(s, le))[x] == 1 {
      SortKeepsMembers(s, le, x);
    }
  }

  /** `sorted(s)[:k]` */
  function TopK<T>(s: seq<T>, le: (T, T) -> bool, k: nat): (r: seq<T>)
    ensures |r| <= k
    ensures forall x :: x in r ==> x in s
  {
    var ranked := Sort(s, le);
    var top := if |ranked| > k then ranked[..k] else ranked;
    assert forall x :: x in top ==> x in ranked && x in multiset(ranked);
    top
  }

  /** `x` comes before `y` in the order of `s` sorted stably by `le`. */
  ghost predicate Outranks<T(!new)>(s: seq<T>, le: (T, T) -> bool, x: T, y: T) {
    le(x, y) && (le(y, x) ==> Before(s, x, y))
  }

  /** The first `k` of the sorted elements: each once and in order, none left out that ranks
      before a taken one, and none left out at all unless `k` are taken. */
  lemma TopKMeaning<T(!new)>(s: seq<T>, le: (T, T) -> bool, k: nat)
    requires TotalPreorder(le) && Distinct(s)
    ensures var top := TopK(s, le, k);
            && Distinct(top)
            && (forall i, j :: 0 <= i < j < |top| ==> Outranks(s, le, top[i], top[j]))
            && (forall x, y :: x in top && y in s && y !in top ==> Outranks(s, le, x, y))
            && (forall y :: y in s && y !in top ==> |top| == k)
  {
    hide Before;
    var ranked, top := Sort(s, le), TopK(s, le, k);
    SortSorts(s, le);
    SortIsStable(s, le);
    SortKeepsDistinct(s, le);
    assert ranked == top + ranked[|top|..];
    forall y | y in s && y !in top ensures y in ranked[|top|..] {
      SortKeepsMembers(s, le, y);
    }
    assert forall i, j :: 0 <= i < j < |ranked| ==> Outranks(s, le, ranked[i], ranked[j]);
  }

  /** Positions listed from the front. */
  ghost predicate Increasing(s: seq<nat>) {
    forall i, j :: 0 <= i < j < |s| ==> s[i] < s[j]
  }

  lemma IncreasingAppend(s: seq<nat>, x: nat)
    requires Increasing(s) && forall y :: y in s ==> y < x
    ensures Increasing(s + [x])
  {
    forall i | 0 <= i < |s| ensures s[i] < x {
      assert s[i] in s;
    }
  }

  lemma BeforeIsLess(s: seq<nat>, x: nat, y: nat)
    requires Increasing(s) && Before(s, x, y)
    ensures x < y
  {
    var i, j :| 0 <= i < j < |s| && s[i] == x && s[j] == y;
  }
}
