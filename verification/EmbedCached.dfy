/** Embedding through the cache: indistinguishable from calling the embedder directly. */
module EmbedCached {
  import opened EmbeddingCache
  import opened Matches
  import opened OrderedDict
  import opened Sorting

  /** What one call of the embedder gives: an exception, or some number of rows. */
  datatype Reply = Raised | Rows(rows: seq<Vector>)

  /** An embedder for one model. `embed` is the vector of each text; `behave` is what the
      n-th call on a batch does, which may fail or return the wrong number of rows. */
  class Embedder {
    const model: string
    const embed: Key -> Vector
    const behave: (nat, seq<string>) -> Reply
    var calls: seq<seq<string>>

    constructor (model: string, embed: Key -> Vector, behave: (nat, seq<string>) -> Reply)
      ensures this.model == model && this.embed == embed && this.behave == behave && calls == []
    {
      this.model, this.embed, this.behave := model, embed, behave;
      calls := [];
    }

    /** A batch answered with the right number of rows is answered row by row. */
    ghost predicate Pointwise() {
      forall n: nat, texts: seq<string> :: IsAnswer(behave(n, texts), texts) ==> behave(n, texts) == Rows(Direct(texts))
    }

    /** The rows a faultless direct call returns. */
    ghost function Direct(texts: seq<string>): (rows: seq<Vector>)
      ensures |rows| == |texts|
      ensures forall i :: 0 <= i < |texts| ==> rows[i] == embed(Key(model, texts[i]))
    {
      seq(|texts|, i requires 0 <= i < |texts| => embed(Key(model, texts[i])))
    }

    method Embed(texts: seq<string>) returns (r: Reply)
      modifies this
      ensures calls == old(calls) + [texts]
      ensures r == behave(|old(calls)|, texts)
    {
      r := behave(|calls|, texts);
      calls := calls + [texts];
    }
  }

  predicate IsAnswer(r: Reply, texts: seq<string>) {
    r.Rows? && |r.rows| == |texts|
  }

  // ---------------------------------------------------------------- what is missing

  /** The texts without a cached vector, each once, in order of first occurrence. */
  function Missing(texts: seq<string>, cached: seq<Option<Vector>>): (r: seq<string>)
    requires |texts| == |cached|
  {
    if texts == [] then []
    else
      var n := |texts| - 1;
      var prev := Missing(texts[..n], cached[..n]);
      if cached[n].None? && texts[n] !in prev then prev + [texts[n]] else prev
  }

  /** The first place where `s` is missing comes before any place where `t` is. */
  ghost predicate MissesFirst(texts: seq<string>, cached: seq<Option<Vector>>, s: string, t: string)
    requires |texts| == |cached|
  {
    exists i :: 0 <= i < |texts| && texts[i] == s && cached[i].None?
           && forall j :: 0 <= j <= i ==> texts[j] != t || cached[j].Some?
  }

  lemma MissesFirstStays(texts: seq<string>, cached: seq<Option<Vector>>, n: nat, s: string, t: string)
    requires |texts| == |cached| && n <= |texts| && MissesFirst(texts[..n], cached[..n], s, t)
    ensures MissesFirst(texts, cached, s, t)
  {
    var i :| 0 <= i < n && texts[..n][i] == s && cached[..n][i].None?
        && forall j :: 0 <= j <= i ==> texts[..n][j] != t || cached[..n][j].Some?;
    forall j | 0 <= j <= i ensures texts[j] != t || cached[j].Some? {
      assert texts[..n][j] == texts[j] && cached[..n][j] == cached[j];
    }
  }

  /** They are asked for in the order in which they are first missing. */
  lemma {:induction false} MissingInOrder(texts: seq<string>, cached: seq<Option<Vector>>)
    requires |texts| == |cached|
    ensures var r := Missing(texts, cached); forall x, y :: 0 <= x < y < |r| ==> MissesFirst(texts, cached, r[x], r[y])
    decreases |texts|
  {
    if texts != [] {
      var n := |texts| - 1;
      var init, known := texts[..n], cached[..n];
      MissingInOrder(init, known);
      MissingMeaning(init, known);
      var prev, r := Missing(init, known), Missing(texts, cached);
      forall x, y | 0 <= x < y < |r| ensures MissesFirst(texts, cached, r[x], r[y]) {
        if y < |prev| {
          MissesFirstStays(texts, cached, n, r[x], r[y]);
        } else {
          assert prev[x] in prev;
          var i :| 0 <= i < n && init[i] == prev[x] && known[i].None?;
          assert forall j :: 0 <= j <= i ==> texts[j] == init[j] && cached[j] == known[j];
        }
      }
    }
  }

  lemma {:induction false} MissingMeaning(texts: seq<string>, cached: seq<Option<Vector>>)
    requires |texts| == |cached|
    ensures var r := Missing(texts, cached);
            && Distinct(r)
            && forall t :: t in r <==> exists i :: 0 <= i < |texts| && texts[i] == t && cached[i].None?
    decreases |texts|
  {
    if texts != [] {
      var n := |texts| - 1;
      MissingMeaning(texts[..n], cached[..n]);
      var prev, r := Missing(texts[..n], cached[..n]), Missing(texts, cached);
      forall t ensures t in r <==> exists i :: 0 <= i < |texts| && texts[i] == t && cached[i].None? {
        if t in prev {
          var i :| 0 <= i < n && texts[..n][i] == t && cached[..n][i].None?;
          assert texts[i] == t && cached[i].None?;
        }
        if i :| 0 <= i < |texts| && texts[i] == t && cached[i].None? {
          if i < n {
            assert texts[..n][i] == t && cached[..n][i].None?;
          }
        }
      }
    }
  }

  method MissingOrder(texts: seq<string>, cached: seq<Option<Vector>>) returns (missing: seq<string>)
    requires |texts| == |cached|
    ensures missing == Missing(texts, cached)
  {
    missing := [];
    var seen: set<string> := {};
    for n := 0 to |texts|
      invariant missing == Missing(texts[..n], cached[..n])
      invariant forall t :: t in seen <==> t in missing
    {
      assert texts[..n + 1][..n] == texts[..n] && cached[..n + 1][..n] == cached[..n];
      if cached[n].None? && texts[n] !in seen {
        seen := seen + {texts[n]};
        missing := missing + [texts[n]];
      }
    }
    assert texts[..|texts|] == texts && cached[..|texts|] == cached;
  }

  // ---------------------------------------------------------------- other threads

  /** What another thread may do to the shared cache between two lock sections. */
  datatype Op = Lookup(model: string, texts: seq<string>)
              | Store(model: string, texts: seq<string>, vectors: seq<Vector>)
              | Clear

  /** Other threads store only what the embedder gives. */
  ghost predicate Trusted(ops: seq<Op>, embed: Key -> Vector) {
    forall n :: 0 <= n < |ops| && ops[n].Store? && |ops[n].texts| == |ops[n].vectors| ==>
      forall i :: 0 <= i < |ops[n].texts| ==> ops[n].vectors[i] == embed(Key(ops[n].model, ops[n].texts[i]))
  }

  lemma StoreKeepsCoherent(before: map<Key, Vector>, after: map<Key, Vector>, model: string, texts: seq<string>,
                           vectors: seq<Vector>, embed: Key -> Vector)
    requires |texts| == |vectors|
    requires Coherent(before, embed)
    requires forall i :: 0 <= i < |texts| ==> vectors[i] == embed(Key(model, texts[i]))
    requires StoredFrom(after, PutAll(before, Keys(model, texts), vectors))
    ensures Coherent(after, embed)
  {
    PutAllCoherent(before, Keys(model, texts), vectors, embed);
  }

  method Interfere(cache: Cache, ops: seq<Op>, ghost embed: Key -> Vector)
    requires cache.Valid() && Coherent(cache.data.items, embed) && Trusted(ops, embed)
    modifies cache
    ensures cache.Valid() && Coherent(cache.data.items, embed)
  {
    for n := 0 to |ops|
      invariant cache.Valid() && Coherent(cache.data.items, embed)
    {
      match ops[n]
      case Lookup(model, texts) =>
        var _ := cache.GetMany(model, texts);
      case Store(model, texts, vectors) =>
        ghost var before := cache.data.items;
        var ok := cache.PutMany(model, texts, vectors);
        if ok {
          StoreKeepsCoherent(before, cache.data.items, model, texts, vectors, embed);
        }
      case Clear =>
        cache.Clear();
    }
  }

  // ---------------------------------------------------------------- the cached call

  /** The second, uncached call is made exactly when something is missing and the call for
      the missing texts fails or returns the wrong number of rows. */
  ghost predicate FallsBack(e: Embedder, missing: seq<string>, calls: nat) {
    missing != [] && !IsAnswer(e.behave(calls, missing), missing)
  }

  /** A plain call is right exactly when it gives one row for each text. */
  lemma RightIffCounted(e: Embedder, texts: seq<string>)
    requires e.Pointwise()
    ensures forall n: nat :: e.behave(n, texts) == Rows(e.Direct(texts)) <==> IsAnswer(e.behave(n, texts), texts)
    ensures IsAnswer(Rows(e.Direct(texts)), texts)
    ensures texts == [] ==> Rows([]) == Rows(e.Direct(texts))
  {}

  /** The fallback can be wrong: an embedder that answers every batch with no rows is asked for
      the missing text, then again for all texts, and still gives no row. */
  lemma FallbackCanBeWrong(e: Embedder)
    requires forall n: nat, texts: seq<string> :: e.behave(n, texts) == Rows([])
    ensures e.Pointwise()
    ensures Missing(["a"], [None]) == ["a"] && FallsBack(e, ["a"], 0)
    ensures e.behave(1, ["a"]) != Rows(e.Direct(["a"]))
  {
    assert Missing(["a"][..0], [None][..0]) == [];
  }

  /** What the cache knows of each text. */
  function FindAll(items: map<Key, Vector>, model: string, texts: seq<string>): (r: seq<Option<Vector>>)
    ensures |r| == |texts|
    ensures forall i :: 0 <= i < |texts| ==> r[i] == Find(items, Key(model, texts[i]))
  {
    seq(|texts|, i requires 0 <= i < |texts| => Find(items, Key(model, texts[i])))
  }

  /** Embed `texts`. `injected` says the caller passed its own cache; the shared one is skipped
      when it is configured with no room. `others` is whatever other threads do to the cache
      between the lookup and the store. The rows are the embedder's own unless a plain call was
      made, for want of a cache or as the fallback, and did not give one row for each text. */
  method Embed(e: Embedder, texts: seq<string>, cache: Cache, injected: bool, others: seq<Op>) returns (r: Reply)
    requires e.Pointwise()
    requires cache.Valid() && Coherent(cache.data.items, e.embed) && Trusted(others, e.embed)
    modifies e, cache
    ensures cache.Valid() && Coherent(cache.data.items, e.embed)
    ensures texts == [] ==> r == Rows([]) && e.calls == old(e.calls)
    ensures texts != [] ==>
      var missing, before := Missing(texts, FindAll(old(cache.data.items), e.model, texts)), |old(e.calls)|;
      if !injected && cache.maxEntries == 0 then
        r == e.behave(before, texts) && e.calls == old(e.calls) + [texts]
      else if missing != [] && !(e.behave(before, missing).Rows? && |e.behave(before, missing).rows| == |missing|) then
        r == e.behave(before + 1, texts) && e.calls == old(e.calls) + [missing, texts]
      else
        r == Rows(e.Direct(texts)) && e.calls == old(e.calls) + (if missing == [] then [] else [missing])
    ensures r == Rows(e.Direct(texts)) <==> r.Rows? && |r.rows| == |texts|
  {
    RightIffCounted(e, texts);
    hide Cache.Valid, Embedder.Pointwise, Embedder.Direct, Trusted, FindAll, Missing;
    if texts == [] {
      return Rows([]);
    }
    if !injected && cache.maxEntries == 0 {
      r := e.Embed(texts);
      return;
    }
    r := EmbedThrough(e, texts, cache, others);
  }

  /** Through the cache: look up, embed what is missing, store it, and fall back to a plain call. */
  method EmbedThrough(e: Embedder, texts: seq<string>, cache: Cache, others: seq<Op>) returns (r: Reply)
    requires e.Pointwise()
    requires cache.Valid() && Coherent(cache.data.items, e.embed) && Trusted(others, e.embed)
    modifies e, cache
    ensures cache.Valid() && Coherent(cache.data.items, e.embed)
    ensures var missing, before := Missing(texts, FindAll(old(cache.data.items), e.model, texts)), |old(e.calls)|;
      if FallsBack(e, missing, before) then
        r == e.behave(before + 1, texts) && e.calls == old(e.calls) + [missing, texts]
      else
        r == Rows(e.Direct(texts)) && e.calls == old(e.calls) + (if missing == [] then [] else [missing])
  {
    hide Cache.Valid, Embedder.Pointwise, Embedder.Direct, Trusted, Missing;
    var cached := cache.GetMany(e.model, texts);
    assert cached == FindAll(old(cache.data.items), e.model, texts);
    var missing := MissingOrder(texts, cached);
    Interfere(cache, others, e.embed);
    var computed := map[];
    if missing != [] {
      var ok;
      ok, computed := EmbedMissing(e, missing, cache);
      if !ok {
        r := e.Embed(texts);
        return;
      }
    }
    var rows := AssembleRows(e, texts, cached, computed);
    return Rows(rows);
  }

  /** Embed what is missing and store it. */
  method EmbedMissing(e: Embedder, missing: seq<string>, cache: Cache) returns (ok: bool, computed: map<string, Vector>)
    requires e.Pointwise()
    requires cache.Valid() && Coherent(cache.data.items, e.embed)
    modifies e, cache
    ensures cache.Valid() && Coherent(cache.data.items, e.embed)
    ensures e.calls == old(e.calls) + [missing]
    ensures ok <==> IsAnswer(e.behave(|old(e.calls)|, missing), missing)
    ensures ok ==> Answers(e, missing, computed)
  {
    computed := map[];
    var reply := e.Embed(missing);
    ok := IsAnswer(reply, missing);
    if ok {
      assert reply.rows == e.Direct(missing);
      ghost var before := cache.data.items;
      var _ := cache.PutMany(e.model, missing, reply.rows);
      StoreKeepsCoherent(before, cache.data.items, e.model, missing, reply.rows, e.embed);
      computed := Zip(missing, reply.rows);
      ZipAnswers(e, missing);
    }
  }

  ghost predicate Answers(e: Embedder, texts: seq<string>, computed: map<string, Vector>) {
    forall t :: t in texts ==> t in computed && computed[t] == e.embed(Key(e.model, t))
  }

  lemma {:induction false} ZipAnswers(e: Embedder, texts: seq<string>)
    ensures Answers(e, texts, Zip(texts, e.Direct(texts)))
  {
    if texts != [] {
      var n := |texts| - 1;
      ZipAnswers(e, texts[..n]);
      assert e.Direct(texts)[..n] == e.Direct(texts[..n]);
      assert texts == texts[..n] + [texts[n]];
    }
  }

  method AssembleRows(e: Embedder, texts: seq<string>, cached: seq<Option<Vector>>, computed: map<string, Vector>)
    returns (rows: seq<Vector>)
    requires |cached| == |texts|
    requires forall i :: 0 <= i < |texts| && cached[i].Some? ==> cached[i].value == e.embed(Key(e.model, texts[i]))
    requires Missing(texts, cached) != [] ==> Answers(e, Missing(texts, cached), computed)
    ensures rows == e.Direct(texts)
  {
    MissingMeaning(texts, cached);
    rows := [];
    for n := 0 to |texts|
      invariant |rows| == n && forall i :: 0 <= i < n ==> rows[i] == e.embed(Key(e.model, texts[i]))
    {
      if cached[n].Some? {
        rows := rows + [cached[n].value];
      } else {
        assert texts[n] in Missing(texts, cached);
        rows := rows + [computed[texts[n]]];
      }
    }
  }

  /** `dict(zip(keys, rows))` */
  function Zip(keys: seq<string>, rows: seq<Vector>): map<string, Vector>
    requires |keys| == |rows|
  {
    if keys == [] then map[]
    else Zip(keys[..|keys| - 1], rows[..|keys| - 1])[keys[|keys| - 1] := rows[|keys| - 1]]
  }
}
