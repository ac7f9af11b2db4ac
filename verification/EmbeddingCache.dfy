/** The process-wide cache of sentence embeddings: least recently used entries go first. */
module EmbeddingCache {
  import opened Matches
  import opened OrderedDict
  import opened Sorting

  type Vector = seq<real>

  /** Entries are keyed by model and text; the digest that stands for the text is taken as
      collision-free. */
  datatype Key = Key(model: string, text: string)

  function Keys(model: string, texts: seq<string>): (keys: seq<Key>)
    ensures |keys| == |texts|
    ensures forall i :: 0 <= i < |texts| ==> keys[i] == Key(model, texts[i])
  {
    seq(|texts|, i requires 0 <= i < |texts| => Key(model, texts[i]))
  }

  function Find(items: map<Key, Vector>, k: Key): Option<Vector> {
    if k in items then Some(items[k]) else None
  }

  /** The keys of a batch that are cached, in batch order: the touches of a lookup. */
  function Known(keys: seq<Key>, items: map<Key, Vector>): seq<Key> {
    if keys == [] then []
    else Known(keys[..|keys| - 1], items) + (if keys[|keys| - 1] in items then [keys[|keys| - 1]] else [])
  }

  /** The last vector the batch gives for `k` is `v`. */
  ghost predicate GivenLast(keys: seq<Key>, vectors: seq<Vector>, k: Key, v: Vector)
    requires |keys| == |vectors|
  {
    exists i :: 0 <= i < |keys| && keys[i] == k && vectors[i] == v && forall j :: i < j < |keys| ==> keys[j] != k
  }

  /** Whatever `after` holds, it holds with the last vector given for it, or else with the old one. */
  ghost predicate HoldsLastGiven(before: map<Key, Vector>, keys: seq<Key>, vectors: seq<Vector>, after: map<Key, Vector>)
    requires |keys| == |vectors|
  {
    forall k :: k in after ==>
      if k in keys then GivenLast(keys, vectors, k, after[k]) else k in before && after[k] == before[k]
  }

  lemma GivenLastStays(keys: seq<Key>, vectors: seq<Vector>, k: Key, v: Vector)
    requires |keys| == |vectors| && keys != [] && k != keys[|keys| - 1]
    requires GivenLast(keys[..|keys| - 1], vectors[..|keys| - 1], k, v)
    ensures GivenLast(keys, vectors, k, v)
  {
    var init, given := keys[..|keys| - 1], vectors[..|keys| - 1];
    var i :| 0 <= i < |init| && init[i] == k && given[i] == v && forall j :: i < j < |init| ==> init[j] != k;
    assert forall j :: i < j < |init| ==> keys[j] == init[j];
  }

  lemma {:induction false} PutAllMeaning(before: map<Key, Vector>, keys: seq<Key>, vectors: seq<Vector>)
    requires |keys| == |vectors|
    ensures HoldsLastGiven(before, keys, vectors, PutAll(before, keys, vectors))
    ensures PutAll(before, keys, vectors).Keys == before.Keys + Elements(keys)
  {
    if keys != [] {
      var n := |keys| - 1;
      var init, given := keys[..n], vectors[..n];
      PutAllMeaning(before, init, given);
      assert keys == init + [keys[n]];
      var after := PutAll(before, keys, vectors);
      assert GivenLast(keys, vectors, keys[n], vectors[n]);
      hide GivenLast;
      forall k | k in after
        ensures if k in keys then GivenLast(keys, vectors, k, after[k]) else k in before && after[k] == before[k]
      {
        if k != keys[n] && k in init {
          GivenLastStays(keys, vectors, k, after[k]);
        }
      }
    }
  }

  /** The stored batch, of which the first may since have been evicted. */
  lemma StoredBatch(before: map<Key, Vector>, keys: seq<Key>, vectors: seq<Vector>, after: map<Key, Vector>)
    requires |keys| == |vectors| && StoredFrom(after, PutAll(before, keys, vectors))
    ensures HoldsLastGiven(before, keys, vectors, after)
    ensures |PutAll(before, keys, vectors)| == |before.Keys + Elements(keys)|
  {
    PutAllMeaning(before, keys, vectors);
    hide PutAll, GivenLast;
    var full := PutAll(before, keys, vectors);
    assert |full| == |full.Keys|;
  }

  /** The touches of a lookup are the cached texts of the batch, each time it has one, in order. */
  lemma {:induction false} KnownMeaning(keys: seq<Key>, items: map<Key, Vector>) returns (at: seq<nat>)
    ensures Increasing(at) && forall i: nat :: i in at <==> i < |keys| && keys[i] in items
    ensures |Known(keys, items)| == |at| && forall x :: 0 <= x < |at| ==> at[x] < |keys| && Known(keys, items)[x] == keys[at[x]]
  {
    at := [];
    if keys != [] {
      var n := |keys| - 1;
      var init := KnownMeaning(keys[..n], items);
      at := init;
      if keys[n] in items {
        at := init + [n];
        IncreasingAppend(init, n);
      }
    }
  }

  function PutAll(items: map<Key, Vector>, keys: seq<Key>, vectors: seq<Vector>): map<Key, Vector>
    requires |keys| == |vectors|
  {
    if keys == [] then items
    else PutAll(items, keys[..|keys| - 1], vectors[..|keys| - 1])[keys[|keys| - 1] := vectors[|keys| - 1]]
  }

  ghost predicate Coherent(items: map<Key, Vector>, embed: Key -> Vector) {
    forall k :: k in items ==> items[k] == embed(k)
  }

  lemma {:induction false} PutAllCoherent(items: map<Key, Vector>, keys: seq<Key>, vectors: seq<Vector>, embed: Key -> Vector)
    requires |keys| == |vectors|
    requires Coherent(items, embed) && forall i :: 0 <= i < |keys| ==> vectors[i] == embed(keys[i])
    ensures Coherent(PutAll(items, keys, vectors), embed)
  {
    if keys != [] {
      PutAllCoherent(items, keys[..|keys| - 1], vectors[..|keys| - 1], embed);
    }
  }

  /** Whatever `items` still holds, it holds with the value it has in `full`. */
  ghost predicate StoredFrom(items: map<Key, Vector>, full: map<Key, Vector>) {
    forall k :: k in items ==> k in full && items[k] == full[k]
  }

  lemma PopFirstStoredFrom(d: ODict<Key, Vector>, full: map<Key, Vector>)
    requires d.order != [] && StoredFrom(d.items, full)
    ensures StoredFrom(d.PopFirst().items, full)
  {}

  class Cache {
    const maxEntries: nat
    var data: ODict<Key, Vector>
    var hits: nat
    var misses: nat
    var evictions: nat
    /** Every hit and every stored key since the cache was last cleared, in order. */
    ghost var touched: seq<Key>
    ghost var lookups: nat

    /** The cache holds exactly the `maxEntries` most recently touched distinct keys, least
        recent first, and every lookup was counted as a hit or a miss. */
    ghost predicate Valid()
      reads this
    {
      HoldsMostRecent(data, touched, maxEntries) && hits + misses == lookups
    }

    constructor (maxEntries: nat)
      ensures Valid()
      ensures this.maxEntries == maxEntries && data.items == map[] && touched == []
      ensures hits == misses == evictions == lookups == 0
    {
      this.maxEntries := maxEntries;
      data := ODict([], map[]);
      hits, misses, evictions := 0, 0, 0;
      touched, lookups := [], 0;
    }

    /** One lookup; a hit becomes the most recent entry. */
    method Get(k: Key) returns (v: Option<Vector>)
      requires Valid()
      modifies this`data, this`hits, this`misses, this`touched, this`lookups
      ensures Valid()
      ensures data.items == old(data.items) && lookups == old(lookups) + 1
      ensures v == Find(old(data.items), k)
      ensures touched == old(touched) + (if v.Some? then [k] else [])
      ensures hits == old(hits) + (if v.Some? then 1 else 0)
    {
      hide HoldsMostRecent;
      v := Find(data.items, k);
      lookups := lookups + 1;
      if v.None? {
        misses := misses + 1;
      } else {
        TracksRecall(data, touched, maxEntries, k);
        data := data.MoveToEnd(k);
        hits := hits + 1;
        touched := touched + [k];
      }
    }

    method GetMany(model: string, texts: seq<string>) returns (out: seq<Option<Vector>>)
      requires Valid()
      modifies this
      ensures Valid()
      ensures data.items == old(data.items) && evictions == old(evictions)
      ensures |out| == |texts|
      ensures forall i :: 0 <= i < |texts| ==> out[i] == Find(old(data.items), Key(model, texts[i]))
      ensures var known := Known(Keys(model, texts), old(data.items));
              && touched == old(touched) + known
              && hits == old(hits) + |known|
      ensures lookups == old(lookups) + |texts|
    {
      hide HoldsMostRecent;
      out := [];
      var keys := Keys(model, texts);
      for n := 0 to |texts|
        invariant Valid()
        invariant data.items == old(data.items) && evictions == old(evictions)
        invariant |out| == n && forall i :: 0 <= i < n ==> out[i] == Find(old(data.items), Key(model, texts[i]))
        invariant touched == old(touched) + Known(keys[..n], old(data.items))
        invariant hits == old(hits) + |Known(keys[..n], old(data.items))|
        invariant lookups == old(lookups) + n
      {
        assert keys[..n + 1][..n] == keys[..n];
        var v := Get(keys[n]);
        out := out + [v];
      }
      assert keys[..|texts|] == keys;
    }

    /** Store a batch, then evict the oldest entries beyond the bound. A batch of unequal
        lengths is refused. */
    method PutMany(model: string, texts: seq<string>, vectors: seq<Vector>) returns (ok: bool)
      requires Valid()
      modifies this
      ensures Valid()
      ensures ok <==> |texts| == |vectors|
      ensures !ok ==> data == old(data) && touched == old(touched) && evictions == old(evictions)
      ensures hits == old(hits) && misses == old(misses) && lookups == old(lookups)
      ensures ok ==> touched == old(touched) + Keys(model, texts)
      ensures ok ==> StoredFrom(data.items, PutAll(old(data.items), Keys(model, texts), vectors))
      ensures ok ==> HoldsLastGiven(old(data.items), Keys(model, texts), vectors, data.items)
      ensures ok ==> |data.items| + (evictions - old(evictions)) == |old(data.items).Keys + Elements(Keys(model, texts))|
    {
      hide HoldsMostRecent, Tracks, ODict.Put, ODict.PopFirst, HoldsLastGiven, Elements;
      if |texts| != |vectors| {
        return false;
      }
      TracksWithinBound(data, touched, maxEntries);
      var keys := Keys(model, texts);
      for n := 0 to |texts|
        invariant Tracks(data, touched, maxEntries)
        invariant data.items == PutAll(old(data.items), keys[..n], vectors[..n])
        invariant touched == old(touched) + keys[..n]
        invariant evictions == old(evictions) && hits == old(hits) && misses == old(misses) && lookups == old(lookups)
      {
        assert keys[..n + 1][..n] == keys[..n] && vectors[..n + 1][..n] == vectors[..n];
        TracksPut(data, touched, maxEntries, keys[n], vectors[n]);
        data := data.Put(keys[n], vectors[n]);
        touched := touched + [keys[n]];
      }
      assert keys[..|texts|] == keys && vectors[..|texts|] == vectors;
      ghost var full, count := data.items, |data.order|;
      TracksSize(data, touched, maxEntries);
      while |data.order| > maxEntries
        invariant Tracks(data, touched, maxEntries)
        invariant StoredFrom(data.items, full)
        invariant |data.order| + evictions == count + old(evictions)
        invariant touched == old(touched) + keys
        invariant hits == old(hits) && misses == old(misses) && lookups == old(lookups)
        decreases |data.order|
      {
        TracksPopFirst(data, touched, maxEntries);
        PopFirstStoredFrom(data, full);
        data := data.PopFirst();
        evictions := evictions + 1;
      }
      TracksWithinBound(data, touched, maxEntries);
      TracksSize(data, touched, maxEntries);
      StoredBatch(old(data.items), keys, vectors, data.items);
      return true;
    }

    method Clear()
      requires Valid()
      modifies this
      ensures Valid() && data.items == map[] && touched == []
      ensures hits == misses == evictions == lookups == 0
    {
      data := ODict([], map[]);
      hits, misses, evictions := 0, 0, 0;
      touched, lookups := [], 0;
    }
  }

  /** Membership, read off the history alone: a key is cached exactly when fewer than
      `maxEntries` other keys were touched after its own last touch. */
  lemma CachedKeys(c: Cache, k: Key)
    requires c.Valid()
    ensures k in c.data.items <==> k in c.touched && |Since(c.touched, k)| < c.maxEntries
  {
    MostRecentlyTouched(c.touched, c.maxEntries, k);
  }

  lemma CacheIsBounded(c: Cache)
    requires c.Valid()
    ensures |c.data.items| <= c.maxEntries
  {
    c.data.Size();
  }
}
