/** The runner's two entry points, over the in-memory store, the result cache and the
    bounded executor. */
module CheckRunner {
  import opened Jobs
  import opened Matches
  import opened MemoryStore
  import opened OrderedDict
  import opened TtlCache
  import Executor

  /** What the pipeline does with the request. */
  datatype Pipeline = Delivers(body: string, matchCount: Option<nat>) | Rejects(message: string) | Crashes

  /** `comparison` is asked for only when there is an earlier job; it may fail. */
  datatype Check = Check(request: Request, pipeline: Pipeline, comparison: Option<string>)

  datatype Verdict = Succeeds(report: Report) | Fails(message: string)

  const SERVER_BUSY := "Server busy."
  const CHECK_FAILED := "Originality check failed. Please try again."

  function Result(check: Check, cached: Option<Report>): Verdict {
    if cached.Some? then Succeeds(cached.value)
    else match check.pipeline
      case Delivers(body, matchCount) => Succeeds(Report(body, matchCount, None))
      case Rejects(message) => Fails(message)
      case Crashes => Fails(CHECK_FAILED)
  }

  /** How the job must end, given what the result cache held for the request. */
  function Expected(check: Check, cached: Option<Report>): Verdict {
    var r, previous := Result(check, cached), check.request.previous;
    if r.Fails? then r
    else if previous.Some? && check.comparison.None? then Fails(CHECK_FAILED)
    else if r.report.matchCount.None? then Fails(CHECK_FAILED)
    else Succeeds(if previous.Some? then r.report.(recheck := check.comparison) else r.report)
  }

  type Results = ODict<string, Entry<Report>>

  function Cached(d: Results, key: string, now: real, ttl: real): Option<Report> {
    if key in d.items && now - d.items[key].at <= ttl then Some(d.items[key].value) else None
  }

  /** The result cache after a check read it at `readAt` and, without a hit, stored at `putAt`. */
  function CacheAfter(d: Results, check: Check, readAt: real, putAt: real, ttl: real, maxSize: nat): Results {
    var key := check.request.key;
    if Cached(d, key, readAt, ttl).Some? then d.MoveToEnd(key)
    else
      var rest := if key in d.items then d.Delete(key) else d;
      match check.pipeline
      case Delivers(body, matchCount) => rest.Put(key, Entry(putAt, Report(body, matchCount, None))).Trim(maxSize)
      case _ => rest
  }

  /** What a check does to the result cache. Served from it, the entry only becomes the most
      recent; a stale entry goes; a fresh report is stored under the key as the most recent, and
      what then exceeds the bound goes from the old end. No other entry changes. */
  ghost predicate Served(before: Results, check: Check, readAt: real, putAt: real, ttl: real, maxSize: nat, after: Results) {
    var key, pipeline := check.request.key, check.pipeline;
    var live := key in before.items && readAt <= before.items[key].at + ttl;
    var others := Remove(before.order, key);
    && after.Valid()
    && after.order == (if live || pipeline.Delivers? then LastN(others + [key], maxSize) else others)
    && (forall k :: k in after.items && k != key ==> k in before.items && after.items[k] == before.items[k])
    && (key in after.items && live ==> after.items[key] == before.items[key])
    && (key in after.items && !live ==>
          pipeline.Delivers? && after.items[key] == Entry(putAt, Report(pipeline.body, pipeline.matchCount, None)))
  }

  lemma CacheAfterServed(before: Results, check: Check, readAt: real, putAt: real, ttl: real, maxSize: nat)
    requires before.Valid() && |before.order| <= maxSize
    ensures Served(before, check, readAt, putAt, ttl, maxSize, CacheAfter(before, check, readAt, putAt, ttl, maxSize))
  {
    var key := check.request.key;
    RemoveMembers(before.order, key);
    RemoveLength(before.order, key);
    if key in before.items {
      before.MoveToEndValid(key);
      before.DeleteValid(key);
    }
    if key !in before.items {
      RemoveAbsent(before.order, key);
    }
    var rest := before.Delete(key);
    if Cached(before, key, readAt, ttl).None? && check.pipeline.Delivers? {
      var e := Entry(putAt, Report(check.pipeline.body, check.pipeline.matchCount, None));
      RemoveAbsent(rest.order, key);
      rest.PutValid(key, e);
      rest.Put(key, e).TrimValid(maxSize);
    }
  }

  predicate Pure(key: string, report: Report) {
    report.recheck.None?
  }

  ghost predicate EndsAs(job: Job, v: Verdict) {
    match v
    case Succeeds(report) => job.status == Done && job.result == Some(report)
    case Fails(message) => job.status == Error && job.error == Some(message)
  }

  /** How a job ends, case by case: a rejection's own message, the fixed message for anything else
      that goes wrong, or the report of the cache or the pipeline with the comparison asked for. */
  lemma OutcomeMeaning(check: Check, cached: Option<Report>, job: Job)
    requires EndsAs(job, Expected(check, cached))
    requires cached.Some? ==> cached.value.recheck == None
    ensures var previous := check.request.previous;
            if cached.None? && check.pipeline.Rejects? then
              job.status == Error && job.error == Some(check.pipeline.message)
            else if cached.None? && check.pipeline.Crashes? then
              job.status == Error && job.error == Some("Originality check failed. Please try again.")
            else
              var body := if cached.Some? then cached.value.body else check.pipeline.body;
              var count := if cached.Some? then cached.value.matchCount else check.pipeline.matchCount;
              if (previous.Some? && check.comparison.None?) || count.None? then
                job.status == Error && job.error == Some("Originality check failed. Please try again.")
              else
                job.status == Done && job.result == Some(Report(body, count, if previous.Some? then check.comparison else None))
  {}

  class CheckRunner {
    const store: InMemoryJobStore
    const cache: TTLCache<string, Report>
    const executor: Executor.BoundedExecutor

    constructor (store: InMemoryJobStore, cache: TTLCache<string, Report>, executor: Executor.BoundedExecutor)
      ensures this.store == store && this.cache == cache && this.executor == executor
    {
      this.store, this.cache, this.executor := store, cache, executor;
    }

    ghost predicate Valid()
      reads store, cache
    {
      store.jobs.Valid() && cache.Valid() && Holds(cache.data, Pure)
    }

    /** Queue a check. At capacity the new record is closed with an error and nothing is queued. */
    method Submit(id: string, owner: Option<string>, created: real, updated: real, now: real,
                  ghost call: nat, ghost bytes: nat) returns (r: Option<Job>)
      requires Valid() && id !in store.jobs.items
      requires Executor.Invariant(executor.Bounds(), executor.Now()) && call !in executor.calls
      modifies store, executor
      ensures Valid()
      ensures Executor.Invariant(executor.Bounds(), executor.Now())
      ensures r.None? <==> |Executor.In(old(executor.calls), Executor.WAITING)| >= executor.maxPending
      ensures var rec := NewJob(id, owner, created, updated);
              var stored := Created(old(store.jobs), rec, now, store.ttl, store.maxJobs);
              if r.None? then
                && store.jobs == Updated(stored, id, Fields(status := Some(Error), error := Some(SERVER_BUSY)), now)
                && executor.Now() == old(executor.Now())
              else
                && r.value == rec && store.jobs == stored
                && executor.Now() == Executor.Next(old(executor.Now()), Executor.Reserve(call, bytes))
      ensures id in store.jobs.items ==>
        var job := store.jobs.items[id];
        && job.owner == owner && job.created == created && job.result == None
        && (if r.None? then job.status == Error && job.error == Some("Server busy.") else job.status == Queued && job.error == None)
    {
      var rec := store.Create(id, owner, created, updated, now);
      var ok := executor.TryReserve(call, bytes);
      if !ok {
        store.Update(id, Fields(status := Some(Error), error := Some(SERVER_BUSY)), now);
        return None;
      }
      return Some(rec);
    }

    /** The worker's side of one check: the job ends as expected, no other job is touched, and
        the result cache never learns of a comparison. `clock(n)` is the n-th reading. */
    method Run(id: string, check: Check, clock: nat -> real)
      requires Valid()
      modifies store, cache
      ensures Valid()
      ensures store.jobs.order == old(store.jobs.order)
      ensures store.jobs.items.Keys == old(store.jobs.items).Keys
      ensures forall other :: other in store.jobs.items && other != id ==>
                store.jobs.items[other] == old(store.jobs.items)[other]
      ensures id in store.jobs.items ==>
        var before, after := old(store.jobs.items)[id], store.jobs.items[id];
        && EndsAs(after, Expected(check, Cached(old(cache.data), check.request.key, clock(1), cache.ttl)))
        && after.id == before.id && after.owner == before.owner && after.created == before.created
      ensures cache.data == CacheAfter(old(cache.data), check, clock(1), clock(2), cache.ttl, cache.maxSize)
      ensures Served(old(cache.data), check, clock(1), clock(2), cache.ttl, cache.maxSize, cache.data)
    {
      hide ODict.Valid, ODict.Put, ODict.Trim, ODict.MoveToEnd, ODict.Delete, CacheAfter, Cached, Holds, Served;
      store.Update(id, Fields(status := Some(Running)), clock(0));
      var v := ResultFor(check, clock(1), clock(2));
      if v.Fails? {
        store.Update(id, Fields(status := Some(Error), error := Some(v.message)), clock(3));
        return;
      }
      var result := v.report;
      if check.request.previous.Some? {
        if check.comparison.None? {
          store.Update(id, Fields(status := Some(Error), error := Some(CHECK_FAILED)), clock(3));
          return;
        }
        result := result.(recheck := check.comparison);
      }
      store.Update(id, Fields(status := Some(Done), result := Some(result)), clock(3));
      if result.matchCount.None? {
        store.Update(id, Fields(status := Some(Error), error := Some(CHECK_FAILED)), clock(4));
      }
    }

    /** The cached result of the same content, or a fresh one, which is then cached: after a
        success a cache with room holds the result under the request's key. */
    method ResultFor(check: Check, readAt: real, putAt: real) returns (v: Verdict)
      requires cache.Valid() && Holds(cache.data, Pure)
      modifies cache
      ensures cache.Valid() && Holds(cache.data, Pure)
      ensures v == Result(check, Cached(old(cache.data), check.request.key, readAt, cache.ttl))
      ensures cache.data == CacheAfter(old(cache.data), check, readAt, putAt, cache.ttl, cache.maxSize)
      ensures Served(old(cache.data), check, readAt, putAt, cache.ttl, cache.maxSize, cache.data)
      ensures v.Succeeds? && cache.maxSize > 0 ==>
        check.request.key in cache.data.items && cache.data.items[check.request.key].value == v.report
    {
      CacheAfterServed(cache.data, check, readAt, putAt, cache.ttl, cache.maxSize);
      hide ODict.Valid, ODict.Put, ODict.Trim, Served;
      var key := check.request.key;
      GetKeeps(cache.data, Pure, key);
      var hit := cache.Get(key, readAt);
      if hit.Some? {
        return Succeeds(hit.value);
      }
      match check.pipeline
      case Delivers(body, matchCount) =>
        var report := Report(body, matchCount, None);
        PutKeeps(cache.data, Pure, key, Entry(putAt, report), cache.maxSize);
        if cache.maxSize > 0 {
          PutIsStored(cache.data, key, Entry(putAt, report), cache.maxSize);
        }
        cache.Put(key, report, putAt);
        return Succeeds(report);
      case Rejects(message) =>
        return Fails(message);
      case Crashes =>
        return Fails(CHECK_FAILED);
    }
  }
}
