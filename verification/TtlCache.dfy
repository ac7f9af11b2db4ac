/** A small cache bounded by size and by the age of each entry. */
module TtlCache {
  import opened Matches
  import opened OrderedDict

  datatype Entry<V> = Entry(at: real, value: V)

  class TTLCache<K(==, !new), V> {
    const maxSize: nat
    const ttl: real
    var data: ODict<K, Entry<V>>

    ghost predicate Valid()
      reads this
    {
      data.Valid() && |data.order| <= maxSize
    }

    constructor (maxSize: nat, ttl: real)
      ensures Valid() && data.items == map[]
      ensures this.maxSize == maxSize && this.ttl == ttl
    {
      this.maxSize, this.ttl := maxSize, ttl;
      data := ODict([], map[]);
    }

    /** The value stored under `key` unless it is missing or older than the bound; an expired
        entry is dropped, a live one becomes the most recent. */
    method Get(key: K, now: real) returns (r: Option<V>)
      requires Valid()
      modifies this
      ensures Valid()
      ensures r.Some? <==> key in old(data.items) && now - old(data.items)[key].at <= ttl
      ensures r.Some? ==> r.value == old(data.items)[key].value && data == old(data).MoveToEnd(key)
      ensures r.None? ==> data == if key in old(data.items) then old(data).Delete(key) else old(data)
    {
      if key !in data.items {
        return None;
      }
      var entry := data.items[key];
      RemoveLength(data.order, key);
      if now - entry.at > ttl {
        data.DeleteValid(key);
        data := data.Delete(key);
        return None;
      }
      data.MoveToEndValid(key);
      data := data.MoveToEnd(key);
      return Some(entry.value);
    }

    /** Store under `key` as the most recent entry and drop the oldest beyond the bound. */
    method Put(key: K, value: V, now: real)
      requires Valid()
      modifies this
      ensures Valid()
      ensures data == old(data).Put(key, Entry(now, value)).Trim(maxSize)
    {
      hide ODict.Valid, ODict.Put, ODict.Trim;
      data.PutValid(key, Entry(now, value));
      data := data.Put(key, Entry(now, value));
      ghost var full := data;
      while |data.order| > maxSize
        invariant data.Valid() && data.Trim(maxSize) == full.Trim(maxSize)
        decreases |data.order|
      {
        data.TrimPopFirst(maxSize);
        data := data.PopFirst();
      }
      data.TrimShort(maxSize);
    }
  }

  /** Whatever holds of every stored value and its key keeps holding: an operation stores
      nothing but what was put, under the key it was put. */
  ghost predicate Holds<K(!new), V>(d: ODict<K, Entry<V>>, p: (K, V) -> bool) {
    forall k :: k in d.items ==> p(k, d.items[k].value)
  }

  lemma GetKeeps<K(!new), V>(d: ODict<K, Entry<V>>, p: (K, V) -> bool, key: K)
    requires Holds(d, p)
    ensures Holds(d.MoveToEnd(key), p) && Holds(d.Delete(key), p)
  {}

  lemma PutKeeps<K(!new), V>(d: ODict<K, Entry<V>>, p: (K, V) -> bool, key: K, e: Entry<V>, n: nat)
    requires d.Valid() && Holds(d, p) && p(key, e.value)
    ensures Holds(d.Put(key, e).Trim(n), p)
  {
    d.PutValid(key, e);
    d.Put(key, e).TrimValid(n);
  }

  /** In a cache with room, what was just put is there. */
  lemma PutIsStored<K(!new), V>(d: ODict<K, Entry<V>>, key: K, e: Entry<V>, n: nat)
    requires d.Valid() && n > 0
    ensures key in d.Put(key, e).Trim(n).items && d.Put(key, e).Trim(n).items[key] == e
  {
    d.PutValid(key, e);
    var order := Touch(d.order, key);
    assert LastN(order, n)[|LastN(order, n)| - 1] == key;
  }
}
