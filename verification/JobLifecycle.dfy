/** The life of a job over any interleaving of request threads, workers, sweeps and
    evictions. Every store or cache access is one atomic step. */
module JobLifecycle {
  import opened Jobs
  import opened Matches
  import Aggregation
  import Postgres = PostgresStore

  type Store = map<string, Job>

  /** Where the thread responsible for a job stands. */
  datatype Stage =
    | Submitting                 // record created, executor not yet asked
    | Handed                     // accepted by the executor
    | Started                    // marked running
    | Computed(report: Report)   // pipeline finished, result not yet cached
    | Ready(report: Report)      // result at hand
    | Final(report: Report)      // comparison attached, if any
    | Logging(report: Report)    // recorded as done, summary line not yet written
    | Failing(message: string)   // an exception is being handled
    | Stopped

  datatype Worker = Worker(request: Request, stage: Stage)

  datatype State = State(store: Store, cache: map<string, Report>, workers: map<string, Worker>)

  datatype Step =
    | Create(id: string, owner: Option<string>, request: Request, created: real, updated: real)
    | Accept(id: string)
    | Refuse(id: string, now: real)                          // the executor's queue is full
    | Abandon(id: string)                                    // the executor raised something else
    | Start(id: string, now: real)
    | CacheHit(id: string)
    | Compute(id: string, body: string, matchCount: Option<nat>)
    | Raise(id: string, message: string)                     // the pipeline or the comparison raised
    | PutResult(id: string)
    | Attach(id: string, comparison: string)                 // the comparison, when one was asked for
    | Finish(id: string, now: real)
    | Log(id: string)
    | Fail(id: string, now: real)
    | Forget(ids: set<string>)                               // sweep, expiry on read or eviction
    | Expire(keys: set<string>)                              // the same for the result cache

  function StageOf(s: State, id: string): Option<Stage> {
    if id in s.workers then Some(s.workers[id].stage) else None
  }

  ghost predicate Enabled(s: State, step: Step) {
    match step
    case Create(id, _, _, _, _) => id !in s.workers
    case Accept(id) => StageOf(s, id) == Some(Submitting)
    case Refuse(id, _) => StageOf(s, id) == Some(Submitting)
    case Abandon(id) => StageOf(s, id) == Some(Submitting)
    case Start(id, _) => StageOf(s, id) == Some(Handed)
    case CacheHit(id) => StageOf(s, id) == Some(Started) && s.workers[id].request.key in s.cache
    case Compute(id, _, _) => StageOf(s, id) == Some(Started)
    case Raise(id, _) =>
      StageOf(s, id).Some? && (StageOf(s, id).value.Started? || StageOf(s, id).value.Ready?)
    case PutResult(id) => StageOf(s, id).Some? && StageOf(s, id).value.Computed?
    case Attach(id, _) => StageOf(s, id).Some? && StageOf(s, id).value.Ready?
    case Finish(id, _) => StageOf(s, id).Some? && StageOf(s, id).value.Final?
    case Log(id) => StageOf(s, id).Some? && StageOf(s, id).value.Logging?
    case Fail(id, _) => StageOf(s, id).Some? && StageOf(s, id).value.Failing?
    case Forget(_) => true
    case Expire(_) => true
  }

  function Goto(s: State, id: string, stage: Stage): State
    requires id in s.workers
  {
    s.(workers := s.workers[id := s.workers[id].(stage := stage)])
  }

  function Write(s: State, id: string, fields: Fields, now: real): State {
    s.(store := Postgres.Updated(s.store, id, fields, now))
  }

  function Next(s: State, step: Step): State
    requires Enabled(s, step)
  {
    match step
    case Create(id, owner, request, created, updated) =>
      s.(store := s.store[id := NewJob(id, owner, created, updated)], workers := s.workers[id := Worker(request, Submitting)])
    case Accept(id) => Goto(s, id, Handed)
    case Refuse(id, now) => Goto(Write(s, id, Fields(status := Some(Error), error := Some("Server busy.")), now), id, Stopped)
    case Abandon(id) => Goto(s, id, Stopped)
    case Start(id, now) => Goto(Write(s, id, Fields(status := Some(Running)), now), id, Started)
    case CacheHit(id) => Goto(s, id, Ready(s.cache[s.workers[id].request.key]))
    case Compute(id, body, matchCount) => Goto(s, id, Computed(Report(body, matchCount, None)))
    case Raise(id, message) => Goto(s, id, Failing(message))
    case PutResult(id) =>
      var w := s.workers[id];
      Goto(s.(cache := s.cache[w.request.key := w.stage.report]), id, Ready(w.stage.report))
    case Attach(id, comparison) =>
      var w := s.workers[id];
      Goto(s, id, Final(if w.request.previous.Some? then w.stage.report.(recheck := Some(comparison)) else w.stage.report))
    case Finish(id, now) =>
      var report := s.workers[id].stage.report;
      Goto(Write(s, id, Fields(status := Some(Done), result := Some(report)), now), id, Logging(report))
    case Log(id) =>
      Goto(s, id, if s.workers[id].stage.report.matchCount.Some? then Stopped
                  else Failing("Originality check failed. Please try again."))
    case Fail(id, now) =>
      Goto(Write(s, id, Fields(status := Some(Error), error := Some(s.workers[id].stage.message)), now), id, Stopped)
    case Forget(ids) => s.(store := s.store - ids)
    case Expire(keys) => s.(cache := s.cache - keys)
  }

  ghost predicate Possible(s: State, steps: seq<Step>)
    decreases |steps|
  {
    steps == [] || (Enabled(s, steps[0]) && Possible(Next(s, steps[0]), steps[1..]))
  }

  function After(s: State, steps: seq<Step>): State
    requires Possible(s, steps)
    decreases |steps|
  {
    if steps == [] then s else After(Next(s, steps[0]), steps[1..])
  }

  const INITIAL := State(map[], map[], map[])

  // ---------------------------------------------------------------- the invariant

  predicate Uncounted(job: Job) {
    job.result.Some? && job.result.value.matchCount.None?
  }

  /** How a stored record must look while its thread is at `stage`. */
  ghost predicate Fits(job: Job, stage: Stage) {
    match stage
    case Submitting => job.status == Queued
    case Handed => job.status == Queued
    case Started => job.status == Running
    case Computed(_) => job.status == Running
    case Ready(_) => job.status == Running
    case Final(_) => job.status == Running
    case Logging(report) => job.status == Done && job.result == Some(report)
    case Failing(_) => job.status == Running || (job.status == Done && Uncounted(job))
    case Stopped => job.status == Queued || job.status == Error || (job.status == Done && job.result.Some?)
  }

  ghost predicate RecordFits(s: State, id: string)
    requires id in s.store
  {
    id in s.workers && s.store[id].id == id && Fits(s.store[id], s.workers[id].stage)
  }

  ghost predicate PureReport(stage: Stage) {
    (stage.Computed? || stage.Ready?) ==> stage.report.recheck.None?
  }

  ghost predicate Invariant(s: State) {
    && (forall id :: id in s.store ==> RecordFits(s, id))
    && (forall id :: id in s.workers ==> PureReport(s.workers[id].stage))
    && (forall key :: key in s.cache ==> s.cache[key].recheck.None?)
  }

  lemma StepKeepsInvariant(s: State, step: Step)
    requires Invariant(s) && Enabled(s, step)
    ensures Invariant(Next(s, step))
  {
    forall id | id in Next(s, step).store ensures RecordFits(Next(s, step), id) {
      StepKeepsRecord(s, step, id);
    }
    StepKeepsReports(s, step);
  }

  /** The job whose thread takes the step. */
  function Actor(step: Step): Option<string> {
    if step.Forget? || step.Expire? then None else Some(step.id)
  }

  lemma OthersUntouched(s: State, step: Step, id: string)
    requires Enabled(s, step) && Actor(step) != Some(id)
    ensures var t := Next(s, step);
            && (id in t.store ==> id in s.store && t.store[id] == s.store[id])
            && (id in s.workers ==> id in t.workers && t.workers[id] == s.workers[id])
  {}

  predicate Records(step: Step) {
    step.Create? || step.Refuse? || step.Start? || step.Finish? || step.Fail?
  }

  lemma RecordingFits(s: State, step: Step, id: string)
    requires Enabled(s, step) && Actor(step) == Some(id) && Records(step)
    requires id in s.store ==> RecordFits(s, id)
    requires id in Next(s, step).store
    ensures RecordFits(Next(s, step), id)
  {}

  lemma MovingFits(s: State, step: Step, id: string)
    requires Enabled(s, step) && Actor(step) == Some(id) && !Records(step)
    requires id in s.store ==> RecordFits(s, id)
    requires id in Next(s, step).store
    ensures RecordFits(Next(s, step), id)
  {}

  lemma StepKeepsRecord(s: State, step: Step, id: string)
    requires Enabled(s, step)
    requires id in s.store ==> RecordFits(s, id)
    requires id in Next(s, step).store
    ensures RecordFits(Next(s, step), id)
  {
    hide Next, Enabled;
    if Actor(step) == Some(id) {
      if Records(step) {
        RecordingFits(s, step, id);
      } else {
        MovingFits(s, step, id);
      }
    } else {
      OthersUntouched(s, step, id);
    }
  }

  lemma StepKeepsReports(s: State, step: Step)
    requires Invariant(s) && Enabled(s, step)
    ensures var t := Next(s, step);
            && (forall id :: id in t.workers ==> PureReport(t.workers[id].stage))
            && (forall key :: key in t.cache ==> t.cache[key].recheck.None?)
  {
    hide Fits;
  }

  // ---------------------------------------------------------------- one step of one job

  /** How one step may change a stored record. */
  ghost predicate StepMoves(a: Job, b: Job) {
    || b == a
    || (&& b.id == a.id && b.owner == a.owner && b.created == a.created
        && match b.status
           case Queued => false
           case Running => a.status == Queued
           case Done => a.status == Running && b.result.Some?
           case Error => a.status == Queued || a.status == Running || (a.status == Done && Uncounted(a)))
  }

  /** In one step a job only moves queued -> running -> done or error, or queued -> error; a
      job already done moves again only when its report lacks the match count. */
  lemma StepMovesJob(s: State, step: Step, id: string)
    requires Enabled(s, step)
    requires id in s.store && RecordFits(s, id)
    requires id in Next(s, step).store
    ensures StepMoves(s.store[id], Next(s, step).store[id])
  {}

  lemma ForgottenStaysForgotten(s: State, step: Step, id: string)
    requires Enabled(s, step)
    requires id in s.workers
    ensures id in Next(s, step).workers
    ensures id !in s.store ==> id !in Next(s, step).store
  {}

  // ---------------------------------------------------------------- whole runs

  /** How any number of steps may change a stored record. */
  ghost predicate RunMoves(a: Job, b: Job) {
    && b.id == a.id && b.owner == a.owner && b.created == a.created
    && (b.status == Queued ==> a.status == Queued)
    && (b.status == Done ==> b.result.Some?)
    && (a.status == Error ==> b == a)
    && (a.status == Done ==> b == a || (Uncounted(a) && b.status == Error))
  }

  lemma {:induction false} RunMovesJob(s: State, steps: seq<Step>, id: string)
    requires Invariant(s) && Possible(s, steps)
    requires id in s.store && id in After(s, steps).store
    ensures Invariant(After(s, steps))
    ensures RunMoves(s.store[id], After(s, steps).store[id])
    decreases |steps|
  {
    if steps != [] {
      var next := Next(s, steps[0]);
      StepKeepsInvariant(s, steps[0]);
      if id in next.store {
        StepMovesJob(s, steps[0], id);
        RunMovesJob(next, steps[1..], id);
      } else {
        ForgottenStaysForgotten(s, steps[0], id);
        StaysForgotten(next, steps[1..], id);
      }
    }
  }

  lemma {:induction false} StaysForgotten(s: State, steps: seq<Step>, id: string)
    requires Possible(s, steps)
    requires id in s.workers && id !in s.store
    ensures id !in After(s, steps).store
    decreases |steps|
  {
    if steps != [] {
      ForgottenStaysForgotten(s, steps[0], id);
      StaysForgotten(Next(s, steps[0]), steps[1..], id);
    }
  }

  lemma {:induction false} ReachableInvariant(s: State, steps: seq<Step>)
    requires Invariant(s) && Possible(s, steps)
    ensures Invariant(After(s, steps))
    decreases |steps|
  {
    if steps != [] {
      StepKeepsInvariant(s, steps[0]);
      ReachableInvariant(Next(s, steps[0]), steps[1..]);
    }
  }

  /** Every report the pipeline delivers carries its match count. */
  ghost predicate AllCounted(steps: seq<Step>) {
    forall i :: 0 <= i < |steps| && steps[i].Compute? ==> steps[i].matchCount.Some?
  }

  ghost predicate OnlyCounted(s: State) {
    && (forall key :: key in s.cache ==> s.cache[key].matchCount.Some?)
    && (forall id :: id in s.store ==> !Uncounted(s.store[id]))
    && (forall id :: id in s.workers ==>
          var stage := s.workers[id].stage;
          (stage.Computed? || stage.Ready? || stage.Final? || stage.Logging?) ==> stage.report.matchCount.Some?)
  }

  lemma StepKeepsCounted(s: State, step: Step)
    requires OnlyCounted(s) && Enabled(s, step)
    requires step.Compute? ==> step.matchCount.Some?
    ensures OnlyCounted(Next(s, step))
  {}

  lemma {:induction false} RunKeepsCounted(s: State, steps: seq<Step>)
    requires OnlyCounted(s) && Possible(s, steps) && AllCounted(steps)
    ensures OnlyCounted(After(s, steps))
    decreases |steps|
  {
    if steps != [] {
      assert steps[0].Compute? ==> steps[0].matchCount.Some?;
      StepKeepsCounted(s, steps[0]);
      assert forall i :: 0 <= i < |steps[1..]| ==> steps[1..][i] == steps[i + 1];
      RunKeepsCounted(Next(s, steps[0]), steps[1..]);
    }
  }

  /** Over any run from the empty state, split anywhere: the owner never changes, a done job
      has its result, cached results carry no comparison, and, when every report carries its
      match count, done and error are final to the last field. */
  lemma LifecycleIsSafe(before: seq<Step>, after: seq<Step>, id: string)
    requires Possible(INITIAL, before) && Possible(After(INITIAL, before), after)
    ensures var s, t := After(INITIAL, before), After(After(INITIAL, before), after);
            && (forall key :: key in t.cache ==> t.cache[key].recheck.None?)
            && (id in t.store && t.store[id].status == Done ==> t.store[id].result.Some?)
            && (id in s.store && id in t.store ==> RunMoves(s.store[id], t.store[id]))
            && (AllCounted(before) && id in s.store && id in t.store && (s.store[id].status == Done || s.store[id].status == Error) ==>
                  t.store[id] == s.store[id])
  {
    var s := After(INITIAL, before);
    ReachableInvariant(INITIAL, before);
    ReachableInvariant(s, after);
    if id in s.store && id in After(s, after).store {
      RunMovesJob(s, after, id);
      if AllCounted(before) {
        RunKeepsCounted(INITIAL, before);
      }
    }
  }

  /** Every delivered report counts the matches of the totals it was assembled from. */
  ghost predicate FromTotals(steps: seq<Step>) {
    forall i :: 0 <= i < |steps| && steps[i].Compute? ==>
      exists starts: seq<nat>, matches: seq<Match> ::
        steps[i].matchCount == Some(Aggregation.Summary(starts, matches).matchCount)
  }

  /** End to end: with reports assembled from the matcher's totals, done and error are final to
      the last field. */
  lemma TerminalIsFinal(before: seq<Step>, after: seq<Step>, id: string)
    requires Possible(INITIAL, before) && Possible(After(INITIAL, before), after) && FromTotals(before)
    ensures var s, t := After(INITIAL, before), After(After(INITIAL, before), after);
            id in s.store && id in t.store && (s.store[id].status == Done || s.store[id].status == Error) ==>
              t.store[id] == s.store[id]
  {
    assert AllCounted(before) by {
      hide Possible, After, Aggregation.Summary;
    }
    LifecycleIsSafe(before, after, id);
    hide Possible, After, AllCounted, FromTotals;
  }

  /** Exactly when: a job just recorded as done can still end in error if and only if its
      report lacks the match count, which the summary line then fails to read. */
  lemma DoneIsFinalIffCounted(s: State, id: string)
    requires Invariant(s) && id in s.store
    requires StageOf(s, id).Some? && StageOf(s, id).value.Logging?
    ensures Uncounted(s.store[id]) <==>
            exists steps :: Possible(s, steps) && id in After(s, steps).store && After(s, steps).store[id].status == Error
  {
    if Uncounted(s.store[id]) {
      var t := Next(s, Log(id));
      PossibleStep(t, Fail(id, 0.0), []);
      PossibleStep(s, Log(id), [Fail(id, 0.0)]);
      var steps := [Log(id)] + [Fail(id, 0.0)];
      assert Possible(s, steps) && After(s, steps).store[id].status == Error;
    }
    if steps :| Possible(s, steps) && id in After(s, steps).store && After(s, steps).store[id].status == Error {
      RunMovesJob(s, steps, id);
    }
  }

  lemma PossibleStep(s: State, step: Step, rest: seq<Step>)
    requires Enabled(s, step) && Possible(Next(s, step), rest)
    ensures Possible(s, [step] + rest) && After(s, [step] + rest) == After(Next(s, step), rest)
  {
    assert ([step] + rest)[1..] == rest;
  }

  // ---------------------------------------------------------------- where a result comes from

  /** Job `id` was created for `request`. */
  ghost predicate Asked(past: seq<Step>, id: string, request: Request) {
    exists owner, created, updated :: Create(id, owner, request, created, updated) in past
  }

  /** The pipeline delivered the report for some job with this content key. */
  ghost predicate Delivered(past: seq<Step>, key: string, report: Report) {
    exists id, request: Request ::
      Asked(past, id, request) && request.key == key && Compute(id, report.body, report.matchCount) in past
  }

  /** The report was delivered for the content asked for, and carries the comparison made for
      this very job exactly when one was asked for. */
  ghost predicate Answers(past: seq<Step>, id: string, request: Request, report: Report) {
    && Delivered(past, request.key, report)
    && (if request.previous.Some? then report.recheck.Some? && Attach(id, report.recheck.value) in past
        else report.recheck.None?)
  }

  /** Refused by the executor, or what was raised, or the fixed message after the summary line failed. */
  ghost predicate Explains(past: seq<Step>, id: string, message: string) {
    || Raise(id, message) in past
    || (message == "Server busy." && exists now :: Refuse(id, now) in past)
    || (message == "Originality check failed. Please try again." && Log(id) in past)
  }

  ghost predicate StampedBy(past: seq<Step>, id: string, updated: real) {
    exists step :: step in past && Actor(step) == Some(id) &&
      match step
      case Create(_, _, _, _, stamp) => stamp == updated
      case Refuse(_, now) => now == updated
      case Start(_, now) => now == updated
      case Finish(_, now) => now == updated
      case Fail(_, now) => now == updated
      case _ => false
  }

  ghost predicate TracedJob(past: seq<Step>, id: string, request: Request, job: Job) {
    && (exists updated :: Create(id, job.owner, request, job.created, updated) in past)
    && StampedBy(past, id, job.updated)
    && (job.result.Some? ==> Answers(past, id, request, job.result.value))
    && (job.error.Some? ==> Explains(past, id, job.error.value))
    && (job.status == Done ==> job.result.Some?) && (job.status == Error ==> job.error.Some?)
  }

  ghost predicate TracedWorker(past: seq<Step>, id: string, w: Worker) {
    && Asked(past, id, w.request)
    && match w.stage
       case Computed(report) => report.recheck.None? && Delivered(past, w.request.key, report)
       case Ready(report) => report.recheck.None? && Delivered(past, w.request.key, report)
       case Final(report) => Answers(past, id, w.request, report)
       case Logging(report) => Answers(past, id, w.request, report)
       case Failing(message) => Explains(past, id, message)
       case _ => true
  }

  ghost predicate TracedEntry(past: seq<Step>, key: string, report: Report) {
    report.recheck.None? && Delivered(past, key, report)
  }

  /** Everything in the state goes back to steps already taken. */
  ghost predicate Traced(past: seq<Step>, s: State) {
    TracedCache(past, s) && forall id :: TracedId(past, s, id)
  }

  ghost predicate TracedCache(past: seq<Step>, s: State) {
    forall key :: key in s.cache ==> TracedEntry(past, key, s.cache[key])
  }

  ghost predicate TracedId(past: seq<Step>, s: State, id: string) {
    && (id in s.workers ==> TracedWorker(past, id, s.workers[id]))
    && (id in s.store ==> id in s.workers && TracedJob(past, id, s.workers[id].request, s.store[id]))
  }

  ghost predicate Grows(past: seq<Step>, more: seq<Step>) {
    forall step :: step in past ==> step in more
  }

  lemma DeliveredStays(past: seq<Step>, more: seq<Step>, key: string, report: Report)
    requires Grows(past, more) && Delivered(past, key, report)
    ensures Delivered(more, key, report)
  {
    var id, request: Request :| Asked(past, id, request) && request.key == key && Compute(id, report.body, report.matchCount) in past;
    AskedStays(past, more, id, request);
  }

  lemma AskedStays(past: seq<Step>, more: seq<Step>, id: string, request: Request)
    requires Grows(past, more) && Asked(past, id, request)
    ensures Asked(more, id, request)
  {
    var owner, created, updated :| Create(id, owner, request, created, updated) in past;
    assert Create(id, owner, request, created, updated) in more;
  }

  lemma AnswersStays(past: seq<Step>, more: seq<Step>, id: string, request: Request, report: Report)
    requires Grows(past, more) && Answers(past, id, request, report)
    ensures Answers(more, id, request, report)
  {
    DeliveredStays(past, more, request.key, report);
  }

  lemma ExplainsStays(past: seq<Step>, more: seq<Step>, id: string, message: string)
    requires Grows(past, more) && Explains(past, id, message)
    ensures Explains(more, id, message)
  {
    if now :| Refuse(id, now) in past {
      assert Refuse(id, now) in more;
    }
  }

  lemma TracedJobStays(past: seq<Step>, more: seq<Step>, id: string, request: Request, job: Job)
    requires Grows(past, more) && TracedJob(past, id, request, job)
    ensures TracedJob(more, id, request, job)
  {
    hide Answers, Explains;
    var updated :| Create(id, job.owner, request, job.created, updated) in past;
    assert Create(id, job.owner, request, job.created, updated) in more;
    if job.result.Some? { AnswersStays(past, more, id, request, job.result.value); }
    if job.error.Some? { ExplainsStays(past, more, id, job.error.value); }
  }

  lemma TracedWorkerStays(past: seq<Step>, more: seq<Step>, id: string, w: Worker)
    requires Grows(past, more) && TracedWorker(past, id, w)
    ensures TracedWorker(more, id, w)
  {
    hide Answers, Explains, Delivered, Asked;
    AskedStays(past, more, id, w.request);
    match w.stage
    case Computed(report) => DeliveredStays(past, more, w.request.key, report);
    case Ready(report) => DeliveredStays(past, more, w.request.key, report);
    case Final(report) => AnswersStays(past, more, id, w.request, report);
    case Logging(report) => AnswersStays(past, more, id, w.request, report);
    case Failing(message) => ExplainsStays(past, more, id, message);
    case _ =>
  }

  lemma ComputeDelivers(past: seq<Step>, id: string, request: Request, body: string, matchCount: Option<nat>)
    requires Asked(past, id, request) && Compute(id, body, matchCount) in past
    ensures Delivered(past, request.key, Report(body, matchCount, None))
  {
    var report := Report(body, matchCount, None);
    assert Asked(past, id, request) && request.key == request.key && Compute(id, report.body, report.matchCount) in past;
  }

  lemma AttachAnswers(past: seq<Step>, id: string, request: Request, report: Report, comparison: string)
    requires report.recheck.None? && Delivered(past, request.key, report) && Attach(id, comparison) in past
    ensures Answers(past, id, request, if request.previous.Some? then report.(recheck := Some(comparison)) else report)
  {}

  lemma NewWorker(s: State, step: Step, past: seq<Step>)
    requires Enabled(s, step) && step.Create? && step in past
    ensures TracedWorker(past, step.id, Next(s, step).workers[step.id])
    ensures TracedJob(past, step.id, step.request, Next(s, step).store[step.id])
  {
    assert Create(step.id, step.owner, step.request, step.created, step.updated) in past;
    assert Actor(step) == Some(step.id);
  }

  /** What a step does to its own worker goes back to steps taken, itself included. */
  lemma ActorTraced(s: State, step: Step, past: seq<Step>, id: string)
    requires Enabled(s, step) && Actor(step) == Some(id) && !step.Create? && step in past
    requires TracedWorker(past, id, s.workers[id])
    requires TracedCache(past, s)
    ensures id in Next(s, step).workers && TracedWorker(past, id, Next(s, step).workers[id])
  {
    hide Delivered, Asked;
    var request := s.workers[id].request;
    match step
    case CacheHit(_) =>
      assert TracedEntry(past, request.key, s.cache[request.key]);
    case Compute(_, body, matchCount) =>
      ComputeDelivers(past, id, request, body, matchCount);
    case Attach(_, comparison) =>
      AttachAnswers(past, id, request, s.workers[id].stage.report, comparison);
    case _ =>
  }

  lemma ActorsJobTraced(s: State, step: Step, past: seq<Step>, id: string)
    requires Enabled(s, step) && Actor(step) == Some(id) && !step.Create? && step in past
    requires id in s.workers && TracedWorker(past, id, s.workers[id])
    requires id in s.store && TracedJob(past, id, s.workers[id].request, s.store[id])
    ensures id in Next(s, step).store && TracedJob(past, id, s.workers[id].request, Next(s, step).store[id])
  {
    hide Answers, Asked;
    match step
    case Refuse(_, now) =>
      assert Refuse(id, now) in past;
    case _ =>
  }

  lemma CacheTraced(s: State, step: Step, past: seq<Step>, key: string)
    requires Enabled(s, step) && step in past
    requires Traced(past, s)
    requires key in Next(s, step).cache
    ensures TracedEntry(past, key, Next(s, step).cache[key])
  {
    hide Answers, Explains, Asked, Delivered;
    if step.PutResult? {
      assert TracedId(past, s, step.id);
    }
  }

  lemma OthersFromBefore(s: State, step: Step, id: string)
    requires Enabled(s, step) && Actor(step) != Some(id)
    ensures id in Next(s, step).workers ==> id in s.workers && Next(s, step).workers[id] == s.workers[id]
  {}

  lemma SameRequest(s: State, step: Step, id: string)
    requires Enabled(s, step) && Actor(step) == Some(id) && !step.Create?
    ensures id in s.workers && id in Next(s, step).workers && Next(s, step).workers[id].request == s.workers[id].request
    ensures id in Next(s, step).store ==> id in s.store
  {}

  lemma TracedStays(past: seq<Step>, more: seq<Step>, s: State)
    requires Grows(past, more) && Traced(past, s)
    ensures Traced(more, s)
  {
    hide TracedWorker, TracedJob, Grows;
    forall key | key in s.cache ensures TracedEntry(more, key, s.cache[key]) {
      DeliveredStays(past, more, key, s.cache[key]);
    }
    forall id ensures TracedId(more, s, id) {
      assert TracedId(past, s, id);
      if id in s.workers {
        TracedWorkerStays(past, more, id, s.workers[id]);
      }
      if id in s.store {
        TracedJobStays(past, more, id, s.workers[id].request, s.store[id]);
      }
    }
  }

  lemma StepTracesId(s: State, step: Step, past: seq<Step>, id: string)
    requires Enabled(s, step) && step in past && Traced(past, s)
    ensures TracedId(past, Next(s, step), id)
  {
    assert TracedId(past, s, id);
    hide TracedWorker, TracedJob, TracedCache, Next, Enabled;
    if Actor(step) != Some(id) {
      OthersUntouched(s, step, id);
      OthersFromBefore(s, step, id);
    } else if step.Create? {
      NewWorker(s, step, past);
      NewRequest(s, step);
    } else {
      SameRequest(s, step, id);
      ActorTraced(s, step, past, id);
      if id in s.store {
        ActorsJobTraced(s, step, past, id);
      }
    }
  }

  lemma NewRequest(s: State, step: Step)
    requires Enabled(s, step) && step.Create?
    ensures step.id in Next(s, step).workers && Next(s, step).workers[step.id].request == step.request
  {}

  lemma StepTraces(s: State, step: Step, past: seq<Step>)
    requires Enabled(s, step) && Traced(past, s)
    ensures Traced(past + [step], Next(s, step))
  {
    var more := past + [step];
    TracedStays(past, more, s);
    hide TracedId, TracedEntry, Next, Enabled;
    forall id ensures TracedId(more, Next(s, step), id) {
      StepTracesId(s, step, more, id);
    }
    forall key | key in Next(s, step).cache ensures TracedEntry(more, key, Next(s, step).cache[key]) {
      CacheTraced(s, step, more, key);
    }
  }

  lemma {:induction false} RunTraces(s: State, past: seq<Step>, steps: seq<Step>)
    requires Possible(s, steps) && Traced(past, s)
    ensures Traced(past + steps, After(s, steps))
    decreases |steps|
  {
    hide Traced;
    if steps == [] {
      assert past + steps == past;
    } else {
      StepTraces(s, steps[0], past);
      RunTraces(Next(s, steps[0]), past + [steps[0]], steps[1..]);
      assert past + [steps[0]] + steps[1..] == past + steps;
    }
  }

  /** Over any run: a stored job has the owner, creation stamp and request it was created with;
      its result, and whatever the result cache holds under a key, was delivered by the pipeline
      for the same content, with a comparison made for this very job exactly when it asked for
      one; an error says why it ended. */
  lemma ResultsAreDelivered(steps: seq<Step>, id: string) returns (request: Request)
    requires Possible(INITIAL, steps) && id in After(INITIAL, steps).store
    ensures Asked(steps, id, request) && TracedJob(steps, id, request, After(INITIAL, steps).store[id])
    ensures forall key :: key in After(INITIAL, steps).cache ==> TracedEntry(steps, key, After(INITIAL, steps).cache[key])
  {
    assert Traced([], INITIAL);
    RunTraces(INITIAL, [], steps);
    hide Possible, TracedJob, TracedEntry;
    assert [] + steps == steps;
    var t := After(INITIAL, steps);
    assert TracedId(steps, t, id);
    request := t.workers[id].request;
  }

  // ---------------------------------------------------------------- the stores

  ghost predicate OnlyForgets(before: Store, after: Store) {
    after == before - (before.Keys - after.Keys)
  }

  /** Seen from a runner, every operation of a store inserts, updates or forgets records:
      creating is inserting and then forgetting, reading and sweeping only forget. */
  lemma StoresOnlyForget(t: Store, job: Job, id: string, now: real, ttl: real, maxJobs: nat, orderBy: Store -> seq<string>)
    ensures OnlyForgets(t[job.id := job], Postgres.Created(t, job, now, ttl, maxJobs, orderBy))
    ensures OnlyForgets(t, Postgres.Swept(t, now, ttl))
    ensures OnlyForgets(t, Postgres.AfterRead(t, id, now, ttl))
  {
    hide Expired;
  }
}
