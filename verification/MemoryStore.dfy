/** The in-memory job store: an insertion-ordered dictionary bounded by count and age. */
module MemoryStore {
  import opened Jobs
  import opened Matches
  import opened OrderedDict
  import opened Sorting

  type Mem = ODict<string, Job>

  // ---------------------------------------------------------------- the operations as functions

  /** The ids to sweep, in insertion order. */
  function Stale(order: seq<string>, items: map<string, Job>, now: real, ttl: real): (r: seq<string>)
    ensures forall k :: k in r <==> k in order && k in items && Expired(items[k], now, ttl)
  {
    if order == [] then []
    else
      assert order == order[..|order| - 1] + [order[|order| - 1]];
      Stale(order[..|order| - 1], items, now, ttl)
      + (var k := order[|order| - 1]; if k in items && Expired(items[k], now, ttl) then [k] else [])
  }

  function DeleteAll(m: Mem, ids: seq<string>): Mem {
    if ids == [] then m else DeleteAll(m, ids[..|ids| - 1]).Delete(ids[|ids| - 1])
  }

  function Swept(m: Mem, now: real, ttl: real): Mem {
    DeleteAll(m, Stale(m.order, m.items, now, ttl))
  }

  function Created(m: Mem, job: Job, now: real, ttl: real, maxJobs: nat): Mem {
    Swept(m, now, ttl).Set(job.id, job).Trim(maxJobs)
  }

  function Read(m: Mem, id: string, now: real, ttl: real): Option<Job> {
    if id in m.items && !Expired(m.items[id], now, ttl) then Some(m.items[id]) else None
  }

  function AfterRead(m: Mem, id: string, now: real, ttl: real): Mem {
    if id in m.items && Expired(m.items[id], now, ttl) then m.Delete(id) else m
  }

  function Updated(m: Mem, id: string, fields: Fields, now: real): Mem {
    if id in m.items then m.(items := m.items[id := fields.ApplyTo(m.items[id]).(updated := now)]) else m
  }

  // ---------------------------------------------------------------- what they mean

  lemma {:induction false} DeleteAllMeaning(m: Mem, ids: seq<string>)
    requires m.Valid()
    ensures DeleteAll(m, ids).Valid()
    ensures DeleteAll(m, ids).items == m.items - Elements(ids)
  {
    if ids != [] {
      var init, last := ids[..|ids| - 1], ids[|ids| - 1];
      DeleteAllMeaning(m, init);
      DeleteAll(m, init).DeleteValid(last);
      assert Elements(ids) == Elements(init) + {last};
    }
  }

  /** A sweep drops exactly the expired jobs. */
  lemma SweptMeaning(m: Mem, now: real, ttl: real)
    requires m.Valid()
    ensures Swept(m, now, ttl).Valid()
    ensures Swept(m, now, ttl).items == map id | id in m.items && m.items[id].updated + ttl >= now :: m.items[id]
  {
    DeleteAllMeaning(m, Stale(m.order, m.items, now, ttl));
  }

  lemma {:induction false} DeleteAllKeepsBefore(m: Mem, ids: seq<string>, a: string, b: string)
    ensures Before(DeleteAll(m, ids).order, a, b) <==> Before(m.order, a, b) && a !in ids && b !in ids
  {
    if ids != [] {
      var init, last := ids[..|ids| - 1], ids[|ids| - 1];
      DeleteAllKeepsBefore(m, init, a, b);
      RemoveKeepsBefore(DeleteAll(m, init).order, last, a, b);
      assert ids == init + [last];
    }
  }

  /** What is left after a sweep is in the order it was. */
  lemma SweptKeepsBefore(m: Mem, now: real, ttl: real, a: string, b: string)
    requires m.Valid()
    ensures Before(Swept(m, now, ttl).order, a, b)
       <==> Before(m.order, a, b) && a in Swept(m, now, ttl).items && b in Swept(m, now, ttl).items
  {
    DeleteAllKeepsBefore(m, Stale(m.order, m.items, now, ttl), a, b);
    SweptMeaning(m, now, ttl);
    if Before(m.order, a, b) {
      BeforeIsIn(m.order, a, b);
    }
  }

  lemma SetNewValid(m: Mem, job: Job)
    requires m.Valid() && job.id !in m.items
    ensures m.Set(job.id, job).Valid()
    ensures m.Set(job.id, job) == ODict(m.order + [job.id], m.items[job.id := job])
  {}

  /** The unexpired jobs inserted after `id`. */
  ghost function LaterJobs(m: Mem, id: string, now: real, ttl: real): set<string> {
    set k | k in m.items && m.items[k].updated + ttl >= now && Before(m.order, id, k)
  }

  /** What a create leaves: the new job unless nothing may stay, and of the earlier ones those
      that are not expired and have, with the new one, fewer than `maxJobs` inserted after them. */
  ghost predicate KeepsLatest(before: Mem, rec: Job, now: real, ttl: real, maxJobs: nat, after: Mem) {
    && (rec.id in after.items <==> maxJobs > 0)
    && after.items == Restrict(before.items[rec.id := rec], after.order)
    && (forall id :: id in before.items ==> (id in after.items <==> StaysLater(before, id, now, ttl, maxJobs)))
    && KeepsOrder(before, rec.id, after)
  }

  /** What is left is in the order it was, with the new job last. */
  ghost predicate KeepsOrder(before: Mem, id: string, after: Mem) {
    forall a, b :: a in after.items && b in after.items ==>
      (Before(after.order, a, b) <==> Before(before.order, a, b) || (a != b && b == id))
  }

  /** `id` is not expired and fewer than `maxJobs` jobs come after it, the new one included. */
  ghost predicate StaysLater(m: Mem, id: string, now: real, ttl: real, maxJobs: nat)
    requires id in m.items
  {
    m.items[id].updated + ttl >= now && |LaterJobs(m, id, now, ttl)| + 1 < maxJobs
  }

  class InMemoryJobStore {
    const maxJobs: nat
    const ttl: real
    var jobs: Mem

    constructor (maxJobs: nat, ttl: real)
      ensures jobs == ODict([], map[]) && this.maxJobs == maxJobs && this.ttl == ttl
    {
      this.maxJobs, this.ttl := maxJobs, ttl;
      jobs := ODict([], map[]);
    }

    /** The id is freshly generated; `created` and `updated` are stamped when the record is
        built, `now` when the lock is held. */
    method Create(id: string, owner: Option<string>, created: real, updated: real, now: real) returns (rec: Job)
      requires jobs.Valid() && id !in jobs.items
      modifies this
      ensures jobs.Valid()
      ensures rec == NewJob(id, owner, created, updated)
      ensures rec.id == id && rec.owner == owner && rec.created == created && rec.updated == updated
      ensures rec.status == Queued && rec.result == None && rec.error == None
      ensures jobs == Created(old(jobs), rec, now, ttl, maxJobs)
      ensures KeepsLatest(old(jobs), rec, now, ttl, maxJobs, jobs)
    {
      hide ODict.Valid, ODict.Trim, ODict.Set, Stale, DeleteAll;
      rec := NewJob(id, owner, created, updated);
      CreateKeepsLatest(jobs, rec, now, ttl, maxJobs);
      hide KeepsLatest;
      var _ := Sweep(now);
      SweptMeaning(old(jobs), now, ttl);
      SetNewValid(jobs, rec);
      jobs := jobs.Set(id, rec);
      ghost var full := jobs;
      while |jobs.order| > maxJobs
        invariant jobs.Valid() && jobs.Trim(maxJobs) == full.Trim(maxJobs)
        decreases |jobs.order|
      {
        jobs.TrimPopFirst(maxJobs);
        jobs := jobs.PopFirst();
      }
      jobs.TrimShort(maxJobs);
    }

    method Get(id: string, now: real) returns (r: Option<Job>)
      requires jobs.Valid()
      modifies this
      ensures jobs.Valid()
      ensures r == Read(old(jobs), id, now, ttl)
      ensures jobs == AfterRead(old(jobs), id, now, ttl)
      ensures r == if id in old(jobs).items && old(jobs).items[id].updated + ttl >= now then Some(old(jobs).items[id]) else None
      ensures jobs.items == if r.Some? then old(jobs).items else old(jobs).items - {id}
    {
      if id !in jobs.items {
        return None;
      }
      var rec := jobs.items[id];
      if now - rec.updated > ttl {
        jobs.DeleteValid(id);
        jobs := jobs.Delete(id);
        return None;
      }
      return Some(rec);
    }

    method Update(id: string, fields: Fields, now: real)
      requires jobs.Valid()
      modifies this
      ensures jobs.Valid()
      ensures jobs == Updated(old(jobs), id, fields, now)
      ensures jobs.order == old(jobs).order && jobs.items.Keys == old(jobs).items.Keys
      ensures forall k :: k in jobs.items ==>
                if k == id then Stamped(old(jobs).items[k], fields, now, jobs.items[k]) else jobs.items[k] == old(jobs).items[k]
    {
      if id !in jobs.items {
        return;
      }
      var rec := fields.ApplyTo(jobs.items[id]);
      jobs := jobs.(items := jobs.items[id := rec.(updated := now)]);
    }

    /** Delete the expired records one by one; answers how many there were. */
    method Sweep(now: real) returns (removed: nat)
      requires jobs.Valid()
      modifies this
      ensures jobs.Valid()
      ensures jobs == Swept(old(jobs), now, ttl)
      ensures jobs.items == map k | k in old(jobs).items && old(jobs).items[k].updated + ttl >= now :: old(jobs).items[k]
      ensures removed == |old(jobs).items| - |jobs.items|
    {
      hide ODict.Valid;
      var stale := Stale(jobs.order, jobs.items, now, ttl);
      for n := 0 to |stale|
        invariant jobs == DeleteAll(old(jobs), stale[..n])
      {
        assert stale[..n + 1][..n] == stale[..n];
        jobs := jobs.Delete(stale[n]);
      }
      assert stale[..|stale|] == stale;
      SweptMeaning(old(jobs), now, ttl);
      StaleCount(old(jobs), now, ttl);
      return |stale|;
    }
  }

  lemma {:induction false} StaleDistinct(order: seq<string>, items: map<string, Job>, now: real, ttl: real)
    requires Distinct(order)
    ensures Distinct(Stale(order, items, now, ttl))
  {
    if order != [] {
      var init, last := order[..|order| - 1], order[|order| - 1];
      StaleDistinct(init, items, now, ttl);
      assert last !in init;
      var prev := Stale(init, items, now, ttl);
      assert forall i :: 0 <= i < |prev| ==> prev[i] in prev;
    }
  }

  lemma StaleCount(m: Mem, now: real, ttl: real)
    requires m.Valid()
    ensures |Stale(m.order, m.items, now, ttl)| == |m.items| - |Swept(m, now, ttl).items|
  {
    var stale := Stale(m.order, m.items, now, ttl);
    StaleDistinct(m.order, m.items, now, ttl);
    DistinctSize(stale);
    DeleteAllMeaning(m, stale);
    var kept := Swept(m, now, ttl).items;
    assert kept.Keys == m.items.Keys - Elements(stale);
    assert Elements(stale) <= m.items.Keys;
    assert |kept.Keys| == |m.items.Keys| - |Elements(stale)|;
  }

  /** After a create the store holds at most `maxJobs` jobs, none of them expired except
      possibly the new one. */
  lemma CreateIsBounded(m: Mem, job: Job, now: real, ttl: real, maxJobs: nat)
    requires m.Valid() && job.id !in m.items
    ensures var after := Created(m, job, now, ttl, maxJobs);
            && after.Valid() && |after.items| <= maxJobs
            && (forall id :: id in after.items ==>
                  after.items[id] == job || (id in m.items && after.items[id] == m.items[id] && !Expired(m.items[id], now, ttl)))
            && (maxJobs > 0 ==> job.id in after.items)
  {
    hide ODict.Valid, ODict.Trim, Swept, ODict.Set;
    SweptMeaning(m, now, ttl);
    var s := Swept(m, now, ttl);
    SetNewValid(s, job);
    var full := s.Set(job.id, job);
    full.TrimValid(maxJobs);
    full.Trim(maxJobs).Size();
    if maxJobs > 0 {
      TrimKeepsNewest(full, maxJobs);
    }
  }

  lemma AppendAfter(m: Mem, job: Job, id: string)
    requires m.Valid() && job.id !in m.items && id in m.items
    ensures Elements(After(m.order + [job.id], id)) == Elements(After(m.order, id)) + {job.id}
  {
    hide Before;
    var order, all := m.order, m.order + [job.id];
    SetNewValid(m, job);
    forall k ensures k in After(all, id) <==> k in After(order, id) || k == job.id {
      AfterIsBefore(all, id, k);
      AfterIsBefore(order, id, k);
      BeforeSnoc(order, job.id, id, k);
    }
  }

  lemma BeforeSnoc(s: seq<string>, e: string, a: string, b: string)
    ensures Before(s + [e], a, b) <==> Before(s, a, b) || (b == e && a in s)
  {
    var t := s + [e];
    if Before(t, a, b) {
      var i, j :| 0 <= i < j < |t| && t[i] == a && t[j] == b;
      assert t[i] == s[i];
    }
    if Before(s, a, b) {
      var i, j :| 0 <= i < j < |s| && s[i] == a && s[j] == b;
      assert t[i] == a && t[j] == b;
    }
    if b == e && a in s {
      var i :| 0 <= i < |s| && s[i] == a;
      assert t[i] == a && t[|s|] == b;
    }
  }

  lemma AfterSweep(m: Mem, id: string, now: real, ttl: real)
    requires m.Valid() && id in Swept(m, now, ttl).items
    ensures Swept(m, now, ttl).Valid()
    ensures Elements(After(Swept(m, now, ttl).order, id)) == LaterJobs(m, id, now, ttl)
  {
    SweptMeaning(m, now, ttl);
    var s := Swept(m, now, ttl);
    forall k ensures k in After(s.order, id) <==> k in LaterJobs(m, id, now, ttl) {
      AfterIsBefore(s.order, id, k);
      SweptKeepsBefore(m, now, ttl, id, k);
    }
  }

  /** An unexpired job survives a create exactly when few enough come after it. */
  lemma SurvivesCreate(m: Mem, job: Job, now: real, ttl: real, maxJobs: nat, id: string)
    requires m.Valid() && job.id !in m.items && id in m.items
    ensures id in Created(m, job, now, ttl, maxJobs).items <==> StaysLater(m, id, now, ttl, maxJobs)
  {
    hide ODict.Valid, Swept, ODict.Set, LaterJobs;
    SweptMeaning(m, now, ttl);
    var s := Swept(m, now, ttl);
    SetNewValid(s, job);
    if id in s.items {
      var order := s.order + [job.id];
      AppendAfter(s, job, id);
      AfterSweep(m, id, now, ttl);
      InOrderIff(s, id);
      InOrderIff(s.Set(job.id, job), id);
      LastNByAfter(order, maxJobs, id);
      DistinctSize(After(order, id));
      assert job.id !in LaterJobs(m, id, now, ttl) by { NotLater(m, job.id, id, now, ttl); }
    }
  }

  lemma NotLater(m: Mem, k: string, id: string, now: real, ttl: real)
    requires k !in m.items
    ensures k !in LaterJobs(m, id, now, ttl)
  {}

  lemma InOrderIff(m: Mem, id: string)
    requires m.Valid()
    ensures id in m.order <==> id in m.items
    ensures Distinct(m.order)
  {}

  lemma LastNKeepsBefore(s: seq<string>, n: nat, a: string, b: string)
    requires Distinct(s)
    ensures Before(LastN(s, n), a, b) <==> Before(s, a, b) && a in LastN(s, n) && b in LastN(s, n)
  {
    var l := LastN(s, n);
    var cut := |s| - |l|;
    assert forall i :: 0 <= i < |l| ==> l[i] == s[cut + i];
    if Before(s, a, b) && a in l {
      var i, j :| 0 <= i < j < |s| && s[i] == a && s[j] == b;
      var k :| 0 <= k < |l| && l[k] == a;
      assert i == cut + k && l[j - cut] == b;
    }
  }

  lemma CreateKeepsOrder(m: Mem, job: Job, now: real, ttl: real, maxJobs: nat)
    requires m.Valid() && job.id !in m.items
    ensures KeepsOrder(m, job.id, Created(m, job, now, ttl, maxJobs))
  {
    CreatedItems(m, job, now, ttl, maxJobs);
    var after := Created(m, job, now, ttl, maxJobs);
    hide Created, Before, ODict.Valid;
    forall a, b | a in after.items && b in after.items
      ensures Before(after.order, a, b) <==> Before(m.order, a, b) || (a != b && b == job.id)
    {
      CreateKeepsTwo(m, job, now, ttl, maxJobs, a, b);
    }
  }

  lemma CreateKeepsTwo(m: Mem, job: Job, now: real, ttl: real, maxJobs: nat, a: string, b: string)
    requires m.Valid() && job.id !in m.items
    requires var after := Created(m, job, now, ttl, maxJobs); after.Valid() && a in after.items && b in after.items
    ensures Before(Created(m, job, now, ttl, maxJobs).order, a, b) <==> Before(m.order, a, b) || (a != b && b == job.id)
  {
    hide Swept, Before, ODict.Set;
    SweptMeaning(m, now, ttl);
    var s := Swept(m, now, ttl);
    SetNewValid(s, job);
    LastNKeepsBefore(s.order + [job.id], maxJobs, a, b);
    BeforeSnoc(s.order, job.id, a, b);
    SweptKeepsBefore(m, now, ttl, a, b);
    if Before(m.order, a, b) {
      BeforeIsIn(m.order, a, b);
    }
  }

  lemma CreatedItems(m: Mem, job: Job, now: real, ttl: real, maxJobs: nat)
    requires m.Valid() && job.id !in m.items
    ensures var after := Created(m, job, now, ttl, maxJobs);
            && after.Valid() && (job.id in after.items <==> maxJobs > 0)
            && after.items == Restrict(m.items[job.id := job], after.order)
  {
    hide Stale, ODict.Valid, DeleteAll, ODict.Trim, ODict.Set;
    CreateIsBounded(m, job, now, ttl, maxJobs);
    var after := Created(m, job, now, ttl, maxJobs);
    OrderIsKeys(after);
    SweptMeaning(m, now, ttl);
    var s := Swept(m, now, ttl);
    SetNewValid(s, job);
    s.Set(job.id, job).TrimValid(maxJobs);
  }

  lemma OrderIsKeys(m: Mem)
    requires m.Valid()
    ensures forall id :: id in m.items <==> id in m.order
  {}

  /** The oldest insertions are what a full store gives up for a new job. */
  lemma CreateKeepsLatest(m: Mem, job: Job, now: real, ttl: real, maxJobs: nat)
    requires m.Valid() && job.id !in m.items
    ensures KeepsLatest(m, job, now, ttl, maxJobs, Created(m, job, now, ttl, maxJobs))
  {
    CreatedItems(m, job, now, ttl, maxJobs);
    var after := Created(m, job, now, ttl, maxJobs);
    hide Created, Restrict, Distinct, StaysLater, Before, KeepsOrder, ODict.Valid;
    CreateKeepsOrder(m, job, now, ttl, maxJobs);
    forall id | id in m.items ensures id in after.items <==> StaysLater(m, id, now, ttl, maxJobs) {
      SurvivesCreate(m, job, now, ttl, maxJobs, id);
    }
  }

  lemma TrimKeepsNewest(m: Mem, n: nat)
    requires m.Valid() && n > 0 && m.order != []
    ensures m.order[|m.order| - 1] in m.Trim(n).items
  {
    var last := m.order[|m.order| - 1];
    assert LastN(m.order, n)[|LastN(m.order, n)| - 1] == last;
    assert last in m.items;
  }
}
