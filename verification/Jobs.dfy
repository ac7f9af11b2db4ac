/** Job records, shared by both stores and the runner. */
module Jobs {
  import opened Matches

  datatype Status = Queued | Running | Done | Error

  /** A finished check. `matchCount` is absent when the report's totals carry no such entry;
      `recheck` holds the comparison with an earlier job, when one was asked for. */
  datatype Report = Report(body: string, matchCount: Option<nat>, recheck: Option<string>)

  datatype Job = Job(
    id: string,
    status: Status,
    created: real,
    updated: real,
    result: Option<Report>,
    error: Option<string>,
    owner: Option<string>)

  /** The fields an update sets; an absent one is left alone. */
  datatype Fields = Fields(
    status: Option<Status> := None,
    result: Option<Report> := None,
    error: Option<string> := None)
  {
    predicate Empty() {
      status.None? && result.None? && error.None?
    }

    function ApplyTo(job: Job): Job {
      job.(status := if status.Some? then status.value else job.status,
           result := if result.Some? then result else job.result,
           error := if error.Some? then error else job.error)
    }
  }

  function NewJob(id: string, owner: Option<string>, created: real, updated: real): Job {
    Job(id, Queued, created, updated, None, None, owner)
  }

  /** `after` is `before` with the given fields set and stamped `now`; nothing else moves. */
  ghost predicate Stamped(before: Job, fields: Fields, now: real, after: Job) {
    && after.id == before.id && after.created == before.created && after.owner == before.owner
    && after.updated == now
    && (fields.status.Some? ==> after.status == fields.status.value)
    && (fields.status.None? ==> after.status == before.status)
    && (fields.result.Some? ==> after.result == fields.result)
    && (fields.result.None? ==> after.result == before.result)
    && (fields.error.Some? ==> after.error == fields.error)
    && (fields.error.None? ==> after.error == before.error)
  }

  predicate Expired(job: Job, now: real, ttl: real) {
    now - job.updated > ttl
  }

  /** What one check asks for: the key of its content and the earlier job to compare with. */
  datatype Request = Request(key: string, previous: Option<string>)
}
