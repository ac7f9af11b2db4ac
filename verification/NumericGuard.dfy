/** The numeric guard: two sentences of the same shape that share essentially none of their
    figures. The figures themselves are taken as given. */
module NumericGuard {
  import opened Matches
  import opened Rounding

  // ---------------------------------------------------------------- multisets

  lemma SubMultisetSize<T>(a: multiset<T>, b: multiset<T>)
    requires a <= b
    ensures |a| <= |b|
    ensures |a| == |b| ==> a == b
  {
    assert b == a + (b - a);
    assert |b| == |a| + |b - a|;
  }

  /** The figures both texts state, with multiplicity. */
  function Shared(a: seq<real>, b: seq<real>): nat {
    |multiset(a) * multiset(b)|
  }

  lemma SharedStep(v: real, a: multiset<real>, pool: multiset<real>)
    ensures v in pool ==> |(multiset{v} + a) * pool| == 1 + |a * (pool - multiset{v})|
    ensures v !in pool ==> (multiset{v} + a) * pool == a * pool
  {
    if v in pool {
      assert (multiset{v} + a) * pool == multiset{v} + a * (pool - multiset{v});
    }
  }

  // ---------------------------------------------------------------- the loop

  /** The inner loop: where `v` first stands in the pool, or the pool's length. */
  method FindFirst(pool: seq<real>, v: real) returns (i: nat)
    ensures i <= |pool|
    ensures i < |pool| ==> pool[i] == v
    ensures i == |pool| ==> v !in pool
  {
    i := 0;
    while i < |pool| && pool[i] != v
      invariant 0 <= i <= |pool|
      invariant v !in pool[..i]
    {
      i := i + 1;
    }
  }

  /** Taking each figure's partner out of the pool counts the multiset intersection. */
  method CountShared(na: seq<real>, nb: seq<real>) returns (shared: nat)
    ensures shared == Shared(na, nb)
  {
    var pool := nb;
    shared := 0;
    for k := 0 to |na|
      invariant shared + |multiset(na[k..]) * multiset(pool)| == Shared(na, nb)
    {
      var v := na[k];
      assert na[k..] == [v] + na[k + 1..];
      SharedStep(v, multiset(na[k + 1..]), multiset(pool));
      var i := FindFirst(pool, v);
      if i < |pool| {
        shared := shared + 1;
        var rest := pool[..i] + pool[i + 1..];
        assert pool == pool[..i] + [v] + pool[i + 1..];
        assert multiset(rest) == multiset(pool) - multiset{v};
        pool := rest;
      } else {
        assert v !in multiset(pool);
      }
    }
    assert multiset(na[|na|..]) * multiset(pool) == multiset{};
  }

  // ---------------------------------------------------------------- agreement

  /** The multiset Jaccard index, before rounding. */
  function Jaccard(a: seq<real>, b: seq<real>): real
    requires a != [] || b != []
  {
    SharedFits(a, b);
    Shared(a, b) as real / (|a| + |b| - Shared(a, b)) as real
  }

  lemma SharedFits(a: seq<real>, b: seq<real>)
    ensures Shared(a, b) <= |a| && Shared(a, b) <= |b|
    ensures Shared(a, b) == |a| == |b| <==> multiset(a) == multiset(b)
  {
    var both := multiset(a) * multiset(b);
    SubMultisetSize(both, multiset(a));
    SubMultisetSize(both, multiset(b));
    assert |multiset(a)| == |a| && |multiset(b)| == |b|;
    if multiset(a) == multiset(b) {
      assert both == multiset(a);
    }
  }

  /** Silent, not zero, when either side states no figure. */
  function AgreementOf(a: seq<real>, b: seq<real>): Option<real> {
    if a == [] || b == [] then None else Some(Round4(Jaccard(a, b)))
  }

  method Agreement(na: seq<real>, nb: seq<real>) returns (r: Option<real>)
    ensures r == AgreementOf(na, nb)
  {
    if na == [] || nb == [] {
      return None;
    }
    var shared := CountShared(na, nb);
    SharedFits(na, nb);
    var union := |na| + |nb| - shared;
    return Some(Round4(shared as real / union as real));
  }

  predicate Conflicts(a: seq<real>, b: seq<real>, gate: real) {
    AgreementOf(a, b).Some? && AgreementOf(a, b).value <= gate
  }

  /** With figures on both sides the agreement is, to four decimals, the share of the figures
      of either text that both state; it conflicts when that is within the gate. */
  lemma AgreementMeaning(a: seq<real>, b: seq<real>, gate: real)
    ensures AgreementOf(a, b).Some? <==> |a| > 0 && |b| > 0
    ensures |a| > 0 && |b| > 0 ==>
              var both := |multiset(a) * multiset(b)|;
              var either := |multiset(a) + (multiset(b) - multiset(a))|;
              && either > 0
              && AgreementOf(a, b).value == Round4(both as real / either as real)
              && (Conflicts(a, b, gate) <==> Round4(both as real / either as real) <= gate)
    ensures |a| == 0 || |b| == 0 ==> !Conflicts(a, b, gate)
  {
    var ma, mb := multiset(a), multiset(b);
    assert mb == ma * mb + (mb - ma);
    assert |ma + (mb - ma)| == |a| + |b| - |ma * mb|;
  }

  /** The index lies in [0, 1], and is 0 exactly when no figure is shared and 1 exactly when
      both texts state the same figures equally often. */
  lemma JaccardMeaning(a: seq<real>, b: seq<real>)
    requires a != [] || b != []
    ensures 0.0 <= Jaccard(a, b) <= 1.0
    ensures Jaccard(a, b) == 0.0 <==> forall x :: !(x in a && x in b)
    ensures Jaccard(a, b) == 1.0 <==> multiset(a) == multiset(b)
  {
    SharedFits(a, b);
    NothingShared(a, b);
    hide Shared;
    Fraction(Shared(a, b), |a| + |b| - Shared(a, b));
  }

  lemma NothingShared(a: seq<real>, b: seq<real>)
    ensures Shared(a, b) == 0 <==> forall x :: !(x in a && x in b)
  {
    var both := multiset(a) * multiset(b);
    forall x ensures x in both <==> x in a && x in b {
      assert x in a <==> x in multiset(a);
      assert x in b <==> x in multiset(b);
    }
    if forall x :: x !in both {
      assert both == multiset{};
    }
  }

  lemma Fraction(s: nat, u: nat)
    requires s <= u && u > 0
    ensures 0.0 <= s as real / u as real <= 1.0
    ensures s as real / u as real == 0.0 <==> s == 0
    ensures s as real / u as real == 1.0 <==> s == u
  {
    var q := s as real / u as real;
    assert q * u as real == s as real;
  }

  /** Neither the order of the figures nor the order of the texts matters. */
  lemma AgreementIsSymmetric(a: seq<real>, b: seq<real>, a': seq<real>, b': seq<real>)
    requires multiset(a) == multiset(a') && multiset(b) == multiset(b')
    ensures AgreementOf(a, b) == AgreementOf(b', a')
  {
    assert |a| == |multiset(a)| == |a'| && |b| == |multiset(b)| == |b'|;
    assert multiset(a) * multiset(b) == multiset(b') * multiset(a');
  }

  /** A conflict is mutual, and a wider gate never withdraws it. */
  lemma ConflictIsSymmetricAndMonotone(a: seq<real>, b: seq<real>, gate: real, wider: real)
    requires gate <= wider
    ensures Conflicts(a, b, gate) == Conflicts(b, a, gate)
    ensures Conflicts(a, b, gate) ==> Conflicts(a, b, wider)
    ensures a == [] || b == [] ==> !Conflicts(a, b, gate)
  {
    AgreementIsSymmetric(a, b, a, b);
  }

  /** Texts whose figures share nothing conflict at any gate that is not negative; texts with
      the same figures conflict only at a gate of 1 or more. */
  lemma ConflictAtTheEnds(a: seq<real>, b: seq<real>, gate: real)
    requires a != [] && b != []
    ensures (forall x :: !(x in a && x in b)) && gate >= 0.0 ==> Conflicts(a, b, gate)
    ensures multiset(a) == multiset(b) ==> (Conflicts(a, b, gate) <==> gate >= 1.0)
  {
    JaccardMeaning(a, b);
    assert Round4(0.0) == 0.0;
    assert Round4(1.0) == 1.0;
  }
}
