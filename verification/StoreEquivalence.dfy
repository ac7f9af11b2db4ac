/** The two job stores keep one contract: no sequence of operations tells them apart. */
module StoreEquivalence {
  import opened Jobs
  import opened Matches
  import opened OrderedDict
  import opened Sets
  import opened Sorting
  import Memory = MemoryStore
  import Postgres = PostgresStore

  type Mem = Memory.Mem
  type Table = Postgres.Table

  // ---------------------------------------------------------------- the relation

  /** Jobs were inserted in the order of their creation stamps. */
  ghost predicate InCreationOrder(order: seq<string>, items: map<string, Job>) {
    && (forall i :: 0 <= i < |order| ==> order[i] in items)
    && (forall i, j :: 0 <= i < j < |order| ==> items[order[i]].created < items[order[j]].created)
  }

  /** The dictionary and the table hold the same jobs. */
  ghost predicate Agree(m: Mem, t: Table) {
    m.Valid() && m.items == t && InCreationOrder(m.order, t)
  }

  // ---------------------------------------------------------------- deletion

  lemma FirstIsOldest(order: seq<string>, items: map<string, Job>, k: string)
    requires order != [] && InCreationOrder(order, items) && k in order[1..]
    ensures k in items && items[order[0]].created < items[k].created
  {
    var i :| 0 <= i < |order| - 1 && order[1..][i] == k;
    assert order[i + 1] == k;
  }

  lemma PrependInOrder(x: string, rest: seq<string>, items: map<string, Job>)
    requires InCreationOrder(rest, items) && x in items
    requires forall k :: k in rest ==> k in items && items[x].created < items[k].created
    ensures InCreationOrder([x] + rest, items)
  {
    assert forall i :: 0 <= i < |rest| ==> rest[i] in rest;
  }

  lemma {:induction false} RemoveInOrder(order: seq<string>, items: map<string, Job>, x: string)
    requires InCreationOrder(order, items)
    ensures InCreationOrder(Remove(order, x), items)
  {
    if order != [] {
      assert InCreationOrder(order[1..], items);
      RemoveInOrder(order[1..], items, x);
      RemoveMembers(order[1..], x);
      hide InCreationOrder, Distinct;
      var rest := Remove(order[1..], x);
      if order[0] != x {
        forall k | k in rest ensures k in items && items[order[0]].created < items[k].created {
          FirstIsOldest(order, items, k);
        }
        assert order[0] in items by { FirstIn(order, items); }
        PrependInOrder(order[0], rest, items);
      }
    }
  }

  lemma FirstIn(order: seq<string>, items: map<string, Job>)
    requires order != [] && InCreationOrder(order, items)
    ensures order[0] in items
  {}

  lemma FewerItemsInOrder(order: seq<string>, items: map<string, Job>, fewer: map<string, Job>)
    requires InCreationOrder(order, items)
    requires forall i :: 0 <= i < |order| ==> order[i] in fewer && fewer[order[i]] == items[order[i]]
    ensures InCreationOrder(order, fewer)
  {}

  lemma DeleteAgrees(m: Mem, t: Table, id: string)
    requires Agree(m, t)
    ensures Agree(m.Delete(id), t - {id})
  {
    m.DeleteValid(id);
    RemoveInOrder(m.order, t, id);
    RemoveMembers(m.order, id);
    FewerItemsInOrder(m.Delete(id).order, t, t - {id});
  }

  lemma {:induction false} DeleteAllAgrees(m: Mem, t: Table, ids: seq<string>)
    requires Agree(m, t)
    ensures Agree(Memory.DeleteAll(m, ids), t - Elements(ids))
  {
    hide Agree;
    if ids == [] {
      assert t - Elements(ids) == t;
    } else {
      var init, last := ids[..|ids| - 1], ids[|ids| - 1];
      DeleteAllAgrees(m, t, init);
      DeleteAgrees(Memory.DeleteAll(m, init), t - Elements(init), last);
      assert t - Elements(ids) == t - Elements(init) - {last};
    }
  }

  lemma SweepAgrees(m: Mem, t: Table, now: real, ttl: real)
    requires Agree(m, t)
    ensures Agree(Memory.Swept(m, now, ttl), Postgres.Swept(t, now, ttl))
  {
    DeleteAllAgrees(m, t, Memory.Stale(m.order, m.items, now, ttl));
    Memory.SweptMeaning(m, now, ttl);
  }

  // ---------------------------------------------------------------- eviction

  function Reverse<T>(s: seq<T>): (r: seq<T>)
    ensures |r| == |s|
    ensures forall i :: 0 <= i < |s| ==> r[i] == s[|s| - 1 - i]
  {
    if s == [] then [] else Reverse(s[1..]) + [s[0]]
  }

  ghost predicate Descending(ids: seq<string>, t: Table) {
    && (forall i :: 0 <= i < |ids| ==> ids[i] in t)
    && (forall i, j :: 0 <= i < j < |ids| ==> t[ids[i]].created > t[ids[j]].created)
  }

  lemma HasMember(ids: seq<string>)
    ensures ids != [] ==> exists id :: id in ids
  {
    if ids != [] { assert ids[0] in ids; }
  }

  lemma TailMembers(ids: seq<string>, t: Table, id: string)
    requires ids != [] && Descending(ids, t)
    ensures id in ids[1..] <==> id in ids && id != ids[0]
  {
    assert ids == [ids[0]] + ids[1..];
    if id in ids[1..] {
      var i :| 0 <= i < |ids| - 1 && ids[1..][i] == id;
      assert t[ids[0]].created > t[ids[i + 1]].created;
    }
  }

  lemma {:induction false} DescendingIsUnique(a: seq<string>, b: seq<string>, t: Table)
    requires Descending(a, t) && Descending(b, t)
    requires forall id :: id in a <==> id in b
    ensures a == b
  {
    if a == [] {
      HasMember(b);
    } else {
      assert a[0] in a;
      var j :| 0 <= j < |b| && b[j] == a[0];
      assert b[0] in b;
      var i :| 0 <= i < |a| && a[i] == b[0];
      assert i == 0 && a[0] == b[0];
      forall id ensures id in a[1..] <==> id in b[1..] {
        TailMembers(a, t, id);
        TailMembers(b, t, id);
      }
      DescendingIsUnique(a[1..], b[1..], t);
    }
  }

  /** With distinct stamps there is one way to list the rows newest first: insertion order
      backwards. */
  lemma NewestFirstIsReverse(m: Mem, t: Table, ids: seq<string>)
    requires Agree(m, t) && Postgres.NewestFirst(t, ids)
    ensures ids == Reverse(m.order)
  {
    var r := Reverse(m.order);
    forall id ensures id in r <==> id in m.order {
      if id in m.order {
        var i :| 0 <= i < |m.order| && m.order[i] == id;
        assert r[|r| - 1 - i] == id;
      }
    }
    forall i | 0 <= i < |ids| ensures ids[i] in t {
      assert ids[i] in ids;
    }
    forall i, j | 0 <= i < j < |ids| ensures t[ids[i]].created > t[ids[j]].created {
      StampsAreDistinct(m, t, ids[i], ids[j]);
    }
    DescendingIsUnique(ids, r, t);
  }

  lemma StampsAreDistinct(m: Mem, t: Table, a: string, b: string)
    requires Agree(m, t) && a in t && b in t && a != b
    ensures t[a].created != t[b].created
  {
    var i :| 0 <= i < |m.order| && m.order[i] == a;
    var j :| 0 <= j < |m.order| && m.order[j] == b;
    assert i < j || j < i;
  }

  function Stamp(t: Table, id: string): real {
    if id in t then t[id].created else 0.0
  }

  ghost function Front(s: seq<string>, k: nat): set<string>
    requires k <= |s|
  {
    Elements(s[..k])
  }

  ghost function Back(s: seq<string>, k: nat): set<string>
    requires k <= |s|
  {
    Elements(s[k..])
  }

  /** Every insertion before the last `n` is strictly older than each of those. */
  ghost predicate EvictedAreOlder(order: seq<string>, t: Table, n: nat) {
    |order| > n ==>
      forall x, y :: x in Front(order, |order| - n) && y in Back(order, |order| - n) ==> Stamp(t, x) < Stamp(t, y)
  }

  lemma Halves(s: seq<string>, k: nat)
    requires Distinct(s) && k <= |s|
    ensures Front(s, k) + Back(s, k) == Elements(s) && Front(s, k) !! Back(s, k)
    ensures |Front(s, k)| == k && |Back(s, k)| == |s| - k
  {
    assert s == s[..k] + s[k..];
    DistinctSize(s[..k]);
    DistinctSize(s[k..]);
  }

  lemma SameKeys(t: Table, a: seq<string>, b: seq<string>)
    requires Elements(a) <= t.Keys && Elements(b) <= t.Keys
    ensures Restrict(t, a) == Restrict(t, b) <==> Elements(a) == Elements(b)
  {
    assert Restrict(t, a).Keys == Elements(a) && Restrict(t, b).Keys == Elements(b);
  }

  lemma BeyondIsRestriction(t: Table, ids: seq<string>, n: nat)
    requires Distinct(ids) && Elements(ids) == t.Keys && n < |ids|
    ensures Postgres.DeleteBeyond(t, ids, n) == Restrict(t, ids[..n])
  {
    Halves(ids, n);
    hide Distinct;
    forall id | id in t ensures id in ids[..n] <==> id !in ids[n..] {
      assert id in Front(ids, n) <==> id !in Back(ids, n);
    }
  }

  lemma SameCount(m: Mem, t: Table, ids: seq<string>)
    requires m.Valid() && m.items == t && Postgres.NewestFirst(t, ids)
    ensures |ids| == |m.order| && Elements(ids) == Elements(m.order) == t.Keys
    ensures Distinct(ids) && Distinct(m.order)
  {
    DistinctSize(ids);
    DistinctSize(m.order);
    hide Distinct;
    assert Elements(ids) == Elements(m.order);
  }

  /** The two evictions agree exactly when the last insertions are the first of the listing. */
  lemma SameKept(m: Mem, t: Table, ids: seq<string>, n: nat)
    requires m.Valid() && m.items == t && Postgres.NewestFirst(t, ids) && n < |m.order|
    ensures |ids| == |m.order|
    ensures m.Trim(n).items == Postgres.DeleteBeyond(t, ids, n) <==> Back(m.order, |m.order| - n) == Front(ids, n)
  {
    SameCount(m, t, ids);
    Halves(ids, n);
    Halves(m.order, |m.order| - n);
    BeyondIsRestriction(t, ids, n);
    hide Distinct;
    SameKeys(t, m.order[|m.order| - n..], ids[..n]);
  }

  /** Two splits of the same jobs, `older` strictly older than `kept` and `listed` no older than
      `rest`: when as many are kept as listed, they are the same jobs. */
  lemma SplitsAgree(t: Table, older: set<string>, kept: set<string>, listed: set<string>, rest: set<string>)
    requires older + kept == listed + rest && |kept| == |listed|
    requires forall x, y :: x in older && y in kept ==> Stamp(t, x) < Stamp(t, y)
    requires forall x, y :: x in listed && y in rest ==> Stamp(t, x) >= Stamp(t, y)
    ensures kept == listed
  {
    if x :| x in listed && x !in kept {
      forall y | y in kept ensures y in listed {
        assert x in older;
      }
      SubsetSize(kept, listed);
    } else {
      SubsetSize(listed, kept);
    }
  }

  /** A sorted listing ranks what it has among its first `n` before everything else. */
  lemma ListedFirst(ids: seq<string>, le: (string, string) -> bool, n: nat, x: string, y: string)
    requires SortedBy(ids, le) && n <= |ids|
    requires x in Front(ids, n) && y in Back(ids, n)
    ensures le(x, y)
  {
    var a :| 0 <= a < n && ids[..n][a] == x;
    var b :| 0 <= b < |ids| - n && ids[n..][b] == y;
    assert le(ids[a], ids[n + b]);
  }

  lemma NewestListedFirst(t: Table, ids: seq<string>, n: nat)
    requires Postgres.NewestFirst(t, ids) && n <= |ids|
    ensures forall x, y :: x in Front(ids, n) && y in Back(ids, n) ==> Stamp(t, x) >= Stamp(t, y)
  {
    var newer := (a: string, b: string) => Stamp(t, a) >= Stamp(t, b);
    assert forall i :: 0 <= i < |ids| ==> ids[i] in ids;
    assert SortedBy(ids, newer);
    hide Distinct, Front, Back, SortedBy;
    forall x, y | x in Front(ids, n) && y in Back(ids, n) ensures Stamp(t, x) >= Stamp(t, y) {
      ListedFirst(ids, newer, n, x, y);
    }
  }

  /** Strictly older evictions are the same for every listing. */
  lemma OlderEvictionsAgree(m: Mem, t: Table, ids: seq<string>, n: nat)
    requires m.Valid() && m.items == t && Postgres.NewestFirst(t, ids)
    requires n < |m.order| && EvictedAreOlder(m.order, t, n)
    ensures m.Trim(n).items == Postgres.DeleteBeyond(t, ids, n)
  {
    hide ODict.Trim, ODict.Valid, Postgres.DeleteBeyond, Postgres.NewestFirst, Distinct, Stamp, Front, Back;
    SameKept(m, t, ids, n);
    SameCount(m, t, ids);
    Halves(ids, n);
    Halves(m.order, |m.order| - n);
    NewestListedFirst(t, ids, n);
    var cut := |m.order| - n;
    SplitsAgree(t, Front(m.order, cut), Back(m.order, cut), Front(ids, n), Back(ids, n));
  }

  /** Newest first, `a` before any other job with its stamp. */
  function NewerOr(t: Table, a: string): (string, string) -> bool {
    (x: string, y: string) => Stamp(t, x) > Stamp(t, y) || (Stamp(t, x) == Stamp(t, y) && (x == a || y != a))
  }

  /** The listing that prefers `a` among equal stamps. */
  lemma FavouringListing(m: Mem, t: Table, a: string)
    requires m.Valid() && m.items == t
    ensures var ids := Sort(m.order, NewerOr(t, a));
            Postgres.NewestFirst(t, ids) && SortedBy(ids, NewerOr(t, a))
  {
    var ids := Sort(m.order, NewerOr(t, a));
    NewerOrIsTotal(t, a);
    SortSorts(m.order, NewerOr(t, a));
    SortKeepsDistinct(m.order, NewerOr(t, a));
    hide Sort, Distinct, TotalPreorder;
    forall id ensures id in ids <==> id in t {
      SortKeepsMembers(m.order, NewerOr(t, a), id);
    }
    SortedIsNewestFirst(t, ids, a);
  }

  lemma NewerOrIsTotal(t: Table, a: string)
    ensures TotalPreorder(NewerOr(t, a))
  {}

  lemma SortedIsNewestFirst(t: Table, ids: seq<string>, a: string)
    requires SortedBy(ids, NewerOr(t, a))
    requires Distinct(ids) && forall id :: id in ids <==> id in t
    ensures Postgres.NewestFirst(t, ids)
  {
    hide Distinct;
    forall i, j | 0 <= i < j < |ids| ensures t[ids[i]].created >= t[ids[j]].created {
      assert ids[i] in t && ids[j] in t;
      assert NewerOr(t, a)(ids[i], ids[j]);
    }
  }

  /** The listing that prefers an evicted job over a kept one that is no newer keeps the former
      or drops the latter. */
  lemma NotOlderDiffers(m: Mem, t: Table, n: nat, x: string, y: string)
    requires m.Valid() && m.items == t && n < |m.order|
    requires x in Front(m.order, |m.order| - n) && y in Back(m.order, |m.order| - n) && Stamp(t, x) >= Stamp(t, y)
    ensures var ids := Sort(m.order, NewerOr(t, x));
            Postgres.NewestFirst(t, ids) && m.Trim(n).items != Postgres.DeleteBeyond(t, ids, n)
  {
    hide ODict.Trim, ODict.Valid, Postgres.DeleteBeyond, Postgres.NewestFirst, Distinct, Stamp, Sort, Front, Back, SortedBy;
    var ids := Sort(m.order, NewerOr(t, x));
    FavouringListing(m, t, x);
    SameKept(m, t, ids, n);
    SameCount(m, t, ids);
    Halves(ids, n);
    Halves(m.order, |m.order| - n);
    if y in Front(ids, n) && x in Back(ids, n) {
      ListedFirst(ids, NewerOr(t, x), n, y, x);
      assert false;
    }
    assert x in Elements(ids) && y in Elements(ids);
  }

  /** Popping the oldest insertions and deleting beyond the offset leave the same jobs, however
      the database lists equal stamps, exactly when every evicted insertion is strictly older
      than every kept one. Stamps are taken before the insertion, so neither ties nor insertions
      out of stamp order are excluded. */
  lemma EvictionAgreesIff(m: Mem, t: Table, n: nat)
    requires m.Valid() && m.items == t
    ensures (forall ids :: Postgres.NewestFirst(t, ids) ==> m.Trim(n).items == Postgres.DeleteBeyond(t, ids, n))
       <==> EvictedAreOlder(m.order, t, n)
  {
    hide ODict.Trim, Postgres.DeleteBeyond, Postgres.NewestFirst, Stamp, Front, Back;
    if |m.order| <= n {
      forall ids | Postgres.NewestFirst(t, ids) ensures m.Trim(n).items == Postgres.DeleteBeyond(t, ids, n) {
        NothingEvicted(m, t, ids, n);
      }
    } else if EvictedAreOlder(m.order, t, n) {
      forall ids | Postgres.NewestFirst(t, ids) ensures m.Trim(n).items == Postgres.DeleteBeyond(t, ids, n) {
        OlderEvictionsAgree(m, t, ids, n);
      }
    } else {
      var cut := |m.order| - n;
      var x, y :| x in Front(m.order, cut) && y in Back(m.order, cut) && Stamp(t, x) >= Stamp(t, y);
      NotOlderDiffers(m, t, n, x, y);
    }
  }

  lemma NothingEvicted(m: Mem, t: Table, ids: seq<string>, n: nat)
    requires m.Valid() && m.items == t && Postgres.NewestFirst(t, ids) && |m.order| <= n
    ensures m.Trim(n).items == Postgres.DeleteBeyond(t, ids, n) == t
  {
    m.TrimShort(n);
    DistinctSize(ids);
    DistinctSize(m.order);
    assert Elements(ids) == Elements(m.order);
  }

  /** With stamps in insertion order the eviction keeps the two stores equal. */
  lemma EvictionAgrees(m: Mem, t: Table, ids: seq<string>, n: nat)
    requires Agree(m, t) && Postgres.NewestFirst(t, ids)
    ensures Agree(m.Trim(n), Postgres.DeleteBeyond(t, ids, n))
  {
    InOrderIsOlder(m.order, t, n);
    EvictionAgreesIff(m, t, n);
    m.TrimValid(n);
    LastNInOrder(m.order, t, n);
    FewerItemsInOrder(LastN(m.order, n), t, m.Trim(n).items);
  }

  lemma InOrderIsOlder(order: seq<string>, t: Table, n: nat)
    requires InCreationOrder(order, t)
    ensures EvictedAreOlder(order, t, n)
  {
    var cut := |order| - n;
    if cut > 0 {
      forall x, y | x in Front(order, cut) && y in Back(order, cut) ensures Stamp(t, x) < Stamp(t, y) {
        var i :| 0 <= i < cut && order[..cut][i] == x;
        var j :| 0 <= j < n && order[cut..][j] == y;
        assert order[cut + j] == y;
      }
    }
  }

  lemma LastNInOrder(order: seq<string>, t: Table, n: nat)
    requires InCreationOrder(order, t)
    ensures InCreationOrder(LastN(order, n), t)
  {}

  // ---------------------------------------------------------------- one operation

  lemma CreateAgrees(m: Mem, t: Table, job: Job, now: real, ttl: real, maxJobs: nat, orderBy: Table -> seq<string>)
    requires Agree(m, t) && job.id !in t
    requires forall id :: id in t ==> t[id].created < job.created
    requires forall u :: Postgres.NewestFirst(u, orderBy(u))
    ensures Agree(Memory.Created(m, job, now, ttl, maxJobs), Postgres.Created(t, job, now, ttl, maxJobs, orderBy))
  {
    hide ODict.Trim, ODict.Set, Postgres.DeleteBeyond, Memory.Swept, Postgres.NewestFirst;
    SweepAgrees(m, t, now, ttl);
    var s, u := Memory.Swept(m, now, ttl), Postgres.Swept(t, now, ttl);
    InsertAgrees(s, u, job);
    var inserted := u[job.id := job];
    assert Postgres.NewestFirst(inserted, orderBy(inserted));
    EvictionAgrees(s.Set(job.id, job), inserted, orderBy(inserted), maxJobs);
  }

  /** A create leaves the same jobs in both stores, for every listing, exactly when what it
      evicts, of the unexpired jobs and the new one, is strictly older than what it keeps. */
  lemma CreateAgreesIff(m: Mem, t: Table, job: Job, now: real, ttl: real, maxJobs: nat)
    requires m.Valid() && m.items == t && job.id !in t
    ensures var inserted, order := Postgres.Swept(t, now, ttl)[job.id := job], Memory.Swept(m, now, ttl).order + [job.id];
            ((forall ids :: Postgres.NewestFirst(inserted, ids) ==>
                   Memory.Created(m, job, now, ttl, maxJobs).items == Postgres.DeleteBeyond(inserted, ids, maxJobs))
                <==> EvictedAreOlder(order, inserted, maxJobs))
  {
    hide ODict.Trim, ODict.Set, Postgres.DeleteBeyond, Postgres.NewestFirst, Memory.Swept, EvictedAreOlder;
    Memory.SweptMeaning(m, now, ttl);
    var s := Memory.Swept(m, now, ttl);
    Memory.SetNewValid(s, job);
    EvictionAgreesIff(s.Set(job.id, job), Postgres.Swept(t, now, ttl)[job.id := job], maxJobs);
  }

  lemma InsertAgrees(m: Mem, t: Table, job: Job)
    requires Agree(m, t) && job.id !in t
    requires forall id :: id in t ==> t[id].created < job.created
    ensures Agree(m.Set(job.id, job), t[job.id := job])
  {
    Memory.SetNewValid(m, job);
    assert forall i :: 0 <= i < |m.order| ==> m.order[i] in t;
  }

  lemma ReadAgrees(m: Mem, t: Table, id: string, now: real, ttl: real)
    requires Agree(m, t)
    ensures Memory.Read(m, id, now, ttl) == Postgres.Read(t, id, now, ttl)
    ensures Agree(Memory.AfterRead(m, id, now, ttl), Postgres.AfterRead(t, id, now, ttl))
  {
    DeleteAgrees(m, t, id);
  }

  /** Updates agree exactly when some field is set, or there is no such job, or the clock
      has not moved: an empty update touches the stamp in memory only. */
  lemma UpdateAgrees(m: Mem, t: Table, id: string, fields: Fields, now: real)
    requires Agree(m, t)
    ensures Agree(Memory.Updated(m, id, fields, now), Postgres.Updated(t, id, fields, now))
       <==> !fields.Empty() || id !in t || t[id].updated == now
  {
    if id in t {
      var t' := Memory.Updated(m, id, fields, now).items;
      assert t'[id] == fields.ApplyTo(t[id]).(updated := now);
      if fields.Empty() {
        assert fields.ApplyTo(t[id]) == t[id];
        if t[id].updated == now {
          assert t' == t;
        }
      }
      assert forall k :: k in t ==> t'[k].created == t[k].created;
    }
  }

  // ---------------------------------------------------------------- whole runs

  datatype Op =
    | Create(id: string, owner: Option<string>, created: real, updated: real, now: real)
    | Get(id: string, now: real)
    | Update(id: string, fields: Fields, now: real)
    | Sweep(now: real)
    | Size

  datatype Answer = Made(job: Job) | Got(found: Option<Job>) | Nothing | Count(n: int)

  datatype Limits = Limits(maxJobs: nat, ttl: real)

  function StepMemory(m: Mem, op: Op, c: Limits): (Answer, Mem) {
    match op
    case Create(id, owner, created, updated, now) =>
      var job := NewJob(id, owner, created, updated);
      (Made(job), Memory.Created(m, job, now, c.ttl, c.maxJobs))
    case Get(id, now) => (Got(Memory.Read(m, id, now, c.ttl)), Memory.AfterRead(m, id, now, c.ttl))
    case Update(id, fields, now) => (Nothing, Memory.Updated(m, id, fields, now))
    case Sweep(now) => (Count(|m.items| - |Memory.Swept(m, now, c.ttl).items|), Memory.Swept(m, now, c.ttl))
    case Size => (Count(|m.items|), m)
  }

  function StepPostgres(t: Table, op: Op, c: Limits, orderBy: Table -> seq<string>): (Answer, Table) {
    match op
    case Create(id, owner, created, updated, now) =>
      var job := NewJob(id, owner, created, updated);
      (Made(job), Postgres.Created(t, job, now, c.ttl, c.maxJobs, orderBy))
    case Get(id, now) => (Got(Postgres.Read(t, id, now, c.ttl)), Postgres.AfterRead(t, id, now, c.ttl))
    case Update(id, fields, now) => (Nothing, Postgres.Updated(t, id, fields, now))
    case Sweep(now) => (Count(|t| - |Postgres.Swept(t, now, c.ttl)|), Postgres.Swept(t, now, c.ttl))
    case Size => (Count(|t|), t)
  }

  function RunMemory(m: Mem, ops: seq<Op>, c: Limits): seq<Answer>
    decreases |ops|
  {
    if ops == [] then []
    else var (a, next) := StepMemory(m, ops[0], c); [a] + RunMemory(next, ops[1..], c)
  }

  function RunPostgres(t: Table, ops: seq<Op>, c: Limits, orderBy: Table -> seq<string>): seq<Answer>
    decreases |ops|
  {
    if ops == [] then []
    else var (a, next) := StepPostgres(t, ops[0], c, orderBy); [a] + RunPostgres(next, ops[1..], c, orderBy)
  }

  /** Ids are fresh, creation stamps increase, updates set something. Nothing is asked of the
      clock readings of the other operations. */
  ghost predicate WellFormed(ops: seq<Op>, used: set<string>, latest: real)
    decreases |ops|
  {
    ops == [] ||
    match ops[0]
    case Create(id, _, created, _, _) =>
      id !in used && created > latest && WellFormed(ops[1..], used + {id}, created)
    case Update(_, fields, _) =>
      !fields.Empty() && WellFormed(ops[1..], used, latest)
    case _ =>
      WellFormed(ops[1..], used, latest)
  }

  ghost predicate Known(t: Table, used: set<string>, latest: real) {
    forall id :: id in t ==> id in used && t[id].created <= latest
  }

  lemma StepAgrees(m: Mem, t: Table, op: Op, c: Limits, orderBy: Table -> seq<string>, used: set<string>, latest: real)
    requires Agree(m, t) && Known(t, used, latest)
    requires forall u :: Postgres.NewestFirst(u, orderBy(u))
    requires op.Create? ==> op.id !in used && op.created > latest
    requires op.Update? ==> !op.fields.Empty()
    ensures var (a, m') := StepMemory(m, op, c);
            var (b, t') := StepPostgres(t, op, c, orderBy);
            && a == b && Agree(m', t')
            && (if op.Create? then Known(t', used + {op.id}, op.created) else Known(t', used, latest))
  {
    match op
    case Create(id, owner, created, updated, now) =>
      CreateAgrees(m, t, NewJob(id, owner, created, updated), now, c.ttl, c.maxJobs, orderBy);
    case Get(id, now) => ReadAgrees(m, t, id, now, c.ttl);
    case Update(id, fields, now) => UpdateAgrees(m, t, id, fields, now);
    case Sweep(now) => SweepAgrees(m, t, now, c.ttl);
    case Size =>
  }

  lemma {:induction false} RunsAgree(m: Mem, t: Table, ops: seq<Op>, c: Limits, orderBy: Table -> seq<string>, used: set<string>, latest: real)
    requires Agree(m, t) && Known(t, used, latest)
    requires forall u :: Postgres.NewestFirst(u, orderBy(u))
    requires WellFormed(ops, used, latest)
    ensures RunMemory(m, ops, c) == RunPostgres(t, ops, c, orderBy)
    decreases |ops|
  {
    if ops != [] {
      var op := ops[0];
      StepAgrees(m, t, op, c, orderBy, used, latest);
      var m', t' := StepMemory(m, op, c).1, StepPostgres(t, op, c, orderBy).1;
      if op.Create? {
        RunsAgree(m', t', ops[1..], c, orderBy, used + {op.id}, op.created);
      } else {
        RunsAgree(m', t', ops[1..], c, orderBy, used, latest);
      }
    }
  }

  /** Observational equivalence: started empty, both stores answer every run alike. */
  lemma StoresAgree(ops: seq<Op>, c: Limits, orderBy: Table -> seq<string>, before: real)
    requires forall u :: Postgres.NewestFirst(u, orderBy(u))
    requires WellFormed(ops, {}, before)
    ensures RunMemory(ODict([], map[]), ops, c) == RunPostgres(map[], ops, c, orderBy)
  {
    RunsAgree(ODict([], map[]), map[], ops, c, orderBy, {}, before);
  }

  /** With equal stamps the database may list the newer insertion last, and then evicts the
      job the dictionary keeps. */
  lemma TiesCanDiffer()
    ensures var a, b := NewJob("a", None, 0.0, 0.0), NewJob("b", None, 0.0, 0.0);
            var m := ODict(["a", "b"], map["a" := a, "b" := b]);
            && m.Valid() && Postgres.NewestFirst(m.items, ["a", "b"])
            && "b" in m.Trim(1).items
            && "b" !in Postgres.DeleteBeyond(m.items, ["a", "b"], 1)
  {
    assert LastN(["a", "b"], 1) == ["b"];
    assert ["a", "b"][1..] == ["b"];
    assert "a"[0] != "b"[0];
  }

  /** Stamps are taken before the lock: two creates can be inserted in the reverse of their
      stamps, and then the stores differ without any tie. */
  lemma ReversedStampsDiffer()
    ensures var a, b := NewJob("a", None, 1.0, 1.0), NewJob("b", None, 0.0, 0.0);
            var m := ODict(["a", "b"], map["a" := a, "b" := b]);
            && m.Valid() && Postgres.NewestFirst(m.items, ["a", "b"])
            && "b" in m.Trim(1).items
            && "b" !in Postgres.DeleteBeyond(m.items, ["a", "b"], 1)
  {
    assert LastN(["a", "b"], 1) == ["b"];
    assert ["a", "b"][1..] == ["b"];
    assert "a"[0] != "b"[0];
  }
}
