/** A dictionary that remembers insertion order, and the order of last use over a whole
    history: what "least recently used" means. */
module OrderedDict {
  import opened Sorting
  import opened Sets

  /** `order` lists the keys of `items`, oldest first. */
  datatype ODict<K(==, !new), V> = ODict(order: seq<K>, items: map<K, V>) {

    ghost predicate Valid() {
      Distinct(order) && forall k :: k in order <==> k in items
    }

    /** Assignment through a key: a new key goes to the end, a known one keeps its place. */
    function Set(k: K, v: V): ODict<K, V> {
      ODict(if k in items then order else order + [k], items[k := v])
    }

    function MoveToEnd(k: K): ODict<K, V> {
      ODict(Touch(order, k), items)
    }

    function Delete(k: K): ODict<K, V> {
      ODict(Remove(order, k), items - {k})
    }

    /** Drop the oldest entry. */
    function PopFirst(): ODict<K, V>
      requires order != []
    {
      ODict(order[1..], items - {order[0]})
    }

    /** Assign, then move to the end. */
    function Put(k: K, v: V): ODict<K, V> {
      Set(k, v).MoveToEnd(k)
    }

    /** Only the last `n` entries. */
    function Trim(n: nat): ODict<K, V> {
      var kept := LastN(order, n);
      ODict(kept, Restrict(items, kept))
    }

    lemma TrimShort(n: nat)
      requires Valid() && |order| <= n
      ensures Trim(n) == this
    {
      hide Distinct;
      assert Restrict(items, order) == items;
    }

    lemma TrimPopFirst(n: nat)
      requires Valid() && |order| > n
      ensures PopFirst().Valid() && PopFirst().Trim(n) == Trim(n)
    {
      PopFirstValid();
      LastNOfRest(order, n);
      RestrictWithout(items, order[0], LastN(order, n));
    }

    lemma TrimValid(n: nat)
      requires Valid()
      ensures Trim(n).Valid() && |Trim(n).order| <= n
      ensures forall k :: k in Trim(n).items ==> k in items && Trim(n).items[k] == items[k]
    {
      assert forall k :: k in LastN(order, n) ==> k in order;
    }

    lemma MoveToEndValid(k: K)
      requires Valid() && k in items
      ensures MoveToEnd(k).Valid()
    {
      TouchMembers(order, k);
    }

    lemma PutValid(k: K, v: V)
      requires Valid()
      ensures Put(k, v) == ODict(Touch(order, k), items[k := v]) && Put(k, v).Valid()
    {
      TouchMembers(order, k);
      RemoveConcat(order, [k], k);
    }

    lemma DeleteValid(k: K)
      requires Valid()
      ensures Delete(k).Valid()
    {
      RemoveMembers(order, k);
    }

    lemma PopFirstValid()
      requires Valid() && order != []
      ensures PopFirst().Valid() && order[0] in items
    {
      assert order == [order[0]] + order[1..];
      DistinctCons(order[0], order[1..]);
    }

    lemma Size()
      requires Valid()
      ensures |order| == |items|
    {
      DistinctSize(order);
      assert Elements(order) == items.Keys;
    }
  }

  function Restrict<K(==), V>(items: map<K, V>, keys: seq<K>): map<K, V> {
    map k | k in keys && k in items :: items[k]
  }

  lemma RestrictWithout<K, V>(items: map<K, V>, x: K, keys: seq<K>)
    requires x !in keys
    ensures Restrict(items - {x}, keys) == Restrict(items, keys)
  {}

  lemma LastNOfRest<T>(s: seq<T>, n: nat)
    requires Distinct(s) && |s| > n
    ensures LastN(s[1..], n) == LastN(s, n)
    ensures s[0] !in LastN(s, n)
  {}

  // ---------------------------------------------------------------- removing and touching

  function Remove<T(==)>(s: seq<T>, x: T): seq<T> {
    if s == [] then [] else (if s[0] == x then [] else [s[0]]) + Remove(s[1..], x)
  }

  function Touch<T(==)>(s: seq<T>, x: T): seq<T> {
    Remove(s, x) + [x]
  }

  lemma {:induction false} RemoveMembers<T>(s: seq<T>, x: T)
    ensures forall y :: y in Remove(s, x) <==> y in s && y != x
    ensures Distinct(s) ==> Distinct(Remove(s, x))
  {
    if s != [] {
      var rest := Remove(s[1..], x);
      RemoveMembers(s[1..], x);
      assert s == [s[0]] + s[1..];
      DistinctCons(s[0], s[1..]);
      DistinctCons(s[0], rest);
    }
  }

  lemma TouchMembers<T>(s: seq<T>, x: T)
    ensures forall y :: y in Touch(s, x) <==> y in s || y == x
    ensures Distinct(s) ==> Distinct(Touch(s, x))
  {
    RemoveMembers(s, x);
    if Distinct(s) {
      var rest, t := Remove(s, x), Touch(s, x);
      forall i, j | 0 <= i < j < |t| ensures t[i] != t[j] {
        assert t[i] == rest[i] && rest[i] in rest;
      }
    }
  }

  lemma {:induction false} RemoveAbsent<T>(s: seq<T>, x: T)
    requires x !in s
    ensures Remove(s, x) == s
  {
    if s != [] {
      RemoveAbsent(s[1..], x);
      assert s == [s[0]] + s[1..];
    }
  }

  lemma {:induction false} RemoveConcat<T>(s: seq<T>, t: seq<T>, x: T)
    ensures Remove(s + t, x) == Remove(s, x) + Remove(t, x)
  {
    if s == [] {
      assert s + t == t;
    } else {
      assert (s + t)[1..] == s[1..] + t;
      RemoveConcat(s[1..], t, x);
    }
  }

  lemma {:induction false} RemoveLength<T>(s: seq<T>, x: T)
    requires Distinct(s)
    ensures |Remove(s, x)| == if x in s then |s| - 1 else |s|
  {
    if s != [] {
      assert s == [s[0]] + s[1..];
      assert s[0] !in s[1..];
      RemoveLength(s[1..], x);
    }
  }

  /** Removing an element leaves the others in their order. */
  lemma {:induction false} RemoveKeepsBefore<T(!new)>(s: seq<T>, x: T, a: T, b: T)
    ensures Before(Remove(s, x), a, b) <==> Before(s, a, b) && a != x && b != x
  {
    if s != [] {
      var e, rest := s[0], Remove(s[1..], x);
      RemoveKeepsBefore(s[1..], x, a, b);
      RemoveMembers(s[1..], x);
      hide Before;
      BeforeCons(e, s[1..], a, b);
      BeforeCons(e, rest, a, b);
      assert s == [e] + s[1..];
      assert Remove(s, x) == if e == x then rest else [e] + rest;
    }
  }

  lemma BeforeIsIn<T(!new)>(s: seq<T>, a: T, b: T)
    requires Before(s, a, b)
    ensures a in s && b in s
  {}

  ghost function Elements<T>(s: seq<T>): set<T> {
    set x | x in s
  }

  lemma {:induction false} DistinctSize<T>(s: seq<T>)
    requires Distinct(s)
    ensures |s| == |Elements(s)|
  {
    if s != [] {
      var init, last := s[..|s| - 1], s[|s| - 1];
      DistinctSize(init);
      assert Elements(s) == Elements(init) + {last};
      assert last !in init;
    }
  }

  // ---------------------------------------------------------------- recency over a history

  /** The keys of a history of touches, least recently touched first. */
  ghost function Recency<T>(log: seq<T>): seq<T> {
    if log == [] then [] else Touch(Recency(log[..|log| - 1]), log[|log| - 1])
  }

  /** The keys touched after the last touch of `k`. */
  ghost function Since<T>(log: seq<T>, k: T): set<T> {
    if log == [] || log[|log| - 1] == k then {} else Since(log[..|log| - 1], k) + {log[|log| - 1]}
  }

  function LastN<T>(s: seq<T>, n: nat): seq<T> {
    if |s| <= n then s else s[|s| - n..]
  }

  /** The elements after the first occurrence of `k`. */
  ghost function After<T>(s: seq<T>, k: T): seq<T> {
    if s == [] then [] else if s[0] == k then s[1..] else After(s[1..], k)
  }

  lemma {:induction false} RecencyMembers<T>(log: seq<T>)
    ensures Distinct(Recency(log))
    ensures forall k :: k in Recency(log) <==> k in log
  {
    if log != [] {
      var init, last := log[..|log| - 1], log[|log| - 1];
      assert log == init + [last];
      RecencyMembers(init);
      TouchMembers(Recency(init), last);
    }
  }

  lemma {:induction false} AfterTouch<T>(s: seq<T>, x: T, k: T)
    requires k in s && k != x
    ensures After(Touch(s, x), k) == Touch(After(s, k), x)
  {
    if s[0] != k {
      assert k in s[1..];
      AfterTouch(s[1..], x, k);
    }
    if s[0] == x {
      assert Touch(s, x) == Touch(s[1..], x);
    } else {
      assert Touch(s, x)[1..] == Touch(s[1..], x);
    }
  }

  lemma {:induction false} AfterLast<T>(s: seq<T>, k: T)
    requires k !in s
    ensures After(s + [k], k) == []
  {
    if s != [] {
      assert (s + [k])[1..] == s[1..] + [k];
      AfterLast(s[1..], k);
    }
  }

  /** What follows `k` in the recency order is what was touched since `k`. */
  lemma {:induction false} AfterIsSince<T>(log: seq<T>, k: T)
    requires k in log
    ensures Elements(After(Recency(log), k)) == Since(log, k)
  {
    var init, last := log[..|log| - 1], log[|log| - 1];
    assert log == init + [last];
    RecencyMembers(init);
    if last == k {
      RemoveMembers(Recency(init), k);
      AfterLast(Remove(Recency(init), k), k);
    } else {
      AfterIsSince(init, k);
      AfterTouch(Recency(init), last, k);
      TouchMembers(After(Recency(init), k), last);
      assert Elements(Touch(After(Recency(init), k), last)) == Elements(After(Recency(init), k)) + {last};
    }
  }

  lemma {:induction false} LastNByAfter<T>(s: seq<T>, n: nat, k: T)
    requires Distinct(s) && k in s
    ensures k in LastN(s, n) <==> |After(s, k)| < n
    ensures Distinct(After(s, k))
  {
    assert s == [s[0]] + s[1..];
    if s[0] == k {
      assert k !in s[1..];
      if |s| > n && n > 0 {
        assert s[|s| - n..] == s[1..][|s| - 1 - n..];
      }
    } else {
      assert k in s[1..];
      LastNByAfter(s[1..], n, k);
      if |s| > n {
        assert s[|s| - n..] == s[1..][|s| - 1 - n..];
      }
    }
  }

  lemma {:induction false} AfterIsBefore<T(!new)>(s: seq<T>, k: T, x: T)
    requires Distinct(s)
    ensures x in After(s, k) <==> Before(s, k, x)
  {
    if s != [] {
      AfterIsBefore(s[1..], k, x);
      assert s == [s[0]] + s[1..];
      BeforeCons(s[0], s[1..], k, x);
      DistinctCons(s[0], s[1..]);
      if s[0] == k && Before(s[1..], k, x) {
        BeforeIsIn(s[1..], k, x);
      }
    }
  }

  /** The last `n` keys of the recency order are exactly the `n` most recently touched
      distinct keys: those after whose last touch fewer than `n` other keys were touched. */
  lemma MostRecentlyTouched<T>(log: seq<T>, n: nat, k: T)
    ensures k in LastN(Recency(log), n) <==> k in log && |Since(log, k)| < n
  {
    RecencyMembers(log);
    if k in log {
      LastNByAfter(Recency(log), n, k);
      AfterIsSince(log, k);
      DistinctSize(After(Recency(log), k));
    }
  }

  // ---------------------------------------------------------------- keeping the most recent

  /** `s` is a suffix of `r` holding at least `n` of its elements when there are that many. */
  ghost predicate KeepsLast<T>(s: seq<T>, r: seq<T>, n: nat) {
    && |s| <= |r|
    && s == r[|r| - |s|..]
    && (|s| >= n || |s| == |r|)
  }

  /** Touching a key in a cache that may already have forgotten it keeps the cache a suffix of
      the full recency order: forgotten keys never matter again. */
  lemma TouchKeepsLast<T>(s: seq<T>, r: seq<T>, n: nat, k: T)
    requires Distinct(r) && KeepsLast(s, r, n)
    ensures KeepsLast(Touch(s, k), Touch(r, k), n)
  {
    var front := r[..|r| - |s|];
    assert r == front + s;
    RemoveConcat(front, s, k);
    assert Distinct(s);
    RemoveLength(s, k);
    assert Touch(r, k) == Remove(front, k) + Touch(s, k);
  }

  lemma TouchKnown<T>(s: seq<T>, k: T)
    requires Distinct(s) && k in s
    ensures |Touch(s, k)| == |s|
  {
    RemoveLength(s, k);
  }

  /** Trimmed to `n`, such a suffix is the last `n` of the full recency order. */
  lemma KeepsLastTrimmed<T>(s: seq<T>, r: seq<T>, n: nat)
    requires KeepsLast(s, r, n)
    ensures LastN(s, n) == LastN(r, n)
  {}

  // ---------------------------------------------------------------- a cache against its history

  /** In the middle of a batch: `d` holds at least the `n` most recently touched keys. */
  ghost predicate Tracks<K(!new), V>(d: ODict<K, V>, log: seq<K>, n: nat) {
    d.Valid() && KeepsLast(d.order, Recency(log), n)
  }

  /** Between operations: `d` holds exactly the `n` most recently touched distinct keys of
      the history, least recent first. */
  ghost predicate HoldsMostRecent<K(!new), V>(d: ODict<K, V>, log: seq<K>, n: nat) {
    d.Valid() && d.order == LastN(Recency(log), n)
  }

  lemma TracksWithinBound<K(!new), V>(d: ODict<K, V>, log: seq<K>, n: nat)
    ensures HoldsMostRecent(d, log, n) <==> Tracks(d, log, n) && |d.order| <= n
  {
    hide ODict.Valid, Recency;
  }

  lemma TracksSize<K(!new), V>(d: ODict<K, V>, log: seq<K>, n: nat)
    requires Tracks(d, log, n)
    ensures |d.order| == |d.items|
  {
    d.Size();
  }

  lemma TracksRecall<K(!new), V>(d: ODict<K, V>, log: seq<K>, n: nat, k: K)
    requires HoldsMostRecent(d, log, n) && k in d.items
    ensures HoldsMostRecent(d.MoveToEnd(k), log + [k], n)
  {
    TracksWithinBound(d, log, n);
    d.MoveToEndValid(k);
    RecencyMembers(log);
    assert (log + [k])[..|log|] == log;
    TouchKeepsLast(d.order, Recency(log), n, k);
    TouchKnown(d.order, k);
    TracksWithinBound(d.MoveToEnd(k), log + [k], n);
  }

  lemma TracksPut<K(!new), V>(d: ODict<K, V>, log: seq<K>, n: nat, k: K, v: V)
    requires Tracks(d, log, n)
    ensures Tracks(d.Put(k, v), log + [k], n)
    ensures d.Put(k, v).items == d.items[k := v]
  {
    d.PutValid(k, v);
    RecencyMembers(log);
    assert (log + [k])[..|log|] == log;
    TouchKeepsLast(d.order, Recency(log), n, k);
  }

  lemma TracksPopFirst<K(!new), V>(d: ODict<K, V>, log: seq<K>, n: nat)
    requires Tracks(d, log, n) && |d.order| > n
    ensures Tracks(d.PopFirst(), log, n)
    ensures |d.PopFirst().order| == |d.order| - 1
  {
    d.PopFirstValid();
  }

  function TouchAll<T(==)>(s: seq<T>, keys: seq<T>): seq<T> {
    if keys == [] then s else Touch(TouchAll(s, keys[..|keys| - 1]), keys[|keys| - 1])
  }

  /** Touch a key, then evict, for every key in turn. */
  function TouchEvict<T(==)>(s: seq<T>, keys: seq<T>, n: nat): seq<T> {
    if keys == [] then s else LastN(Touch(TouchEvict(s, keys[..|keys| - 1], n), keys[|keys| - 1]), n)
  }

  /** Evicting once after a batch leaves the same keys, in the same order, as evicting after
      every single touch. */
  lemma {:induction false} BatchEviction<T>(s: seq<T>, keys: seq<T>, n: nat)
    requires Distinct(s) && |s| <= n
    ensures Distinct(TouchAll(s, keys))
    ensures TouchEvict(s, keys, n) == LastN(TouchAll(s, keys), n)
  {
    if keys != [] {
      var init, last := keys[..|keys| - 1], keys[|keys| - 1];
      BatchEviction(s, init, n);
      var r := TouchAll(s, init);
      TouchMembers(r, last);
      TouchKeepsLast(LastN(r, n), r, n, last);
      KeepsLastTrimmed(Touch(LastN(r, n), last), Touch(r, last), n);
    }
  }
}
