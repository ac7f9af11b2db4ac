/** The bounded executor as a step protocol. Each lock section is one atomic step; between
    steps any other thread may run. */
module Executor {
  import opened Sets

  /** Where an accepted call stands. A `Picked` call is held by a pool thread that has not yet
      entered its first lock section; a `Withdrawn` one was refused by the pool. */
  datatype Phase = Reserved | Queued | Picked | Running | Finished | Withdrawn

  datatype Call = Call(phase: Phase, bytes: nat, starts: nat)

  type Calls = map<nat, Call>

  /** The two counters and, for the proof, the calls they count. */
  datatype State = State(pending: int, running: int, calls: Calls)

  datatype Limits = Limits(maxWorkers: nat, maxPending: nat)

  datatype Step =
    | Reserve(id: nat, bytes: nat)   // first lock section of submit
    | Enqueue(id: nat)               // the pool takes the call
    | Withdraw(id: nat)              // the pool raises; the reservation is undone
    | Pick(id: nat)                  // a free pool thread takes the call off the queue
    | Enter(id: nat)                 // first lock section of the wrapper
    | Leave(id: nat)                 // last lock section of the wrapper

  // ---------------------------------------------------------------- counting calls

  ghost function In(calls: Calls, phases: set<Phase>): set<nat> {
    set id | id in calls && calls[id].phase in phases
  }

  const WAITING := {Reserved, Queued, Picked}
  const ON_THREAD := {Picked, Running}

  /** Changing one call's phase changes each count by its own membership only. */
  lemma MoveCounts(calls: Calls, id: nat, call: Call, phases: set<Phase>)
    ensures var before, after := |In(calls, phases)|, |In(calls[id := call], phases)|;
            after == before
                     - (if id in calls && calls[id].phase in phases then 1 else 0)
                     + (if call.phase in phases then 1 else 0)
  {
    var rest := In(calls, phases) - {id};
    if id in In(calls, phases) {
      assert In(calls, phases) == rest + {id};
    } else {
      assert In(calls, phases) == rest;
    }
    if call.phase in phases {
      assert In(calls[id := call], phases) == rest + {id};
    } else {
      assert In(calls[id := call], phases) == rest;
    }
  }

  // ---------------------------------------------------------------- the protocol

  const INITIAL := State(0, 0, map[])

  /** Program order of each call, the capacity check, and the size of the thread pool. */
  ghost predicate Enabled(c: Limits, s: State, step: Step) {
    match step
    case Reserve(id, _) => id !in s.calls && s.pending < c.maxPending
    case Enqueue(id) => id in s.calls && s.calls[id].phase == Reserved
    case Withdraw(id) => id in s.calls && s.calls[id].phase == Reserved
    case Pick(id) => id in s.calls && s.calls[id].phase == Queued && |In(s.calls, ON_THREAD)| < c.maxWorkers
    case Enter(id) => id in s.calls && s.calls[id].phase == Picked
    case Leave(id) => id in s.calls && s.calls[id].phase == Running
  }

  function Move(calls: Calls, id: nat, phase: Phase): Calls {
    if id in calls then calls[id := calls[id].(phase := phase)] else calls
  }

  function Next(s: State, step: Step): State {
    match step
    case Reserve(id, bytes) => State(s.pending + 1, s.running, s.calls[id := Call(Reserved, bytes, 0)])
    case Enqueue(id) => s.(calls := Move(s.calls, id, Queued))
    case Withdraw(id) => State(s.pending - 1, s.running, Move(s.calls, id, Withdrawn))
    case Pick(id) => s.(calls := Move(s.calls, id, Picked))
    case Enter(id) =>
      State(s.pending - 1, s.running + 1,
            if id in s.calls then s.calls[id := s.calls[id].(phase := Running, starts := s.calls[id].starts + 1)] else s.calls)
    case Leave(id) => State(s.pending, s.running - 1, Move(s.calls, id, Finished))
  }

  function After(steps: seq<Step>): State {
    if steps == [] then INITIAL else Next(After(steps[..|steps| - 1]), steps[|steps| - 1])
  }

  /** Every step of the interleaving was enabled when it was taken. */
  ghost predicate Possible(c: Limits, steps: seq<Step>) {
    steps == [] ||
    (Possible(c, steps[..|steps| - 1]) && Enabled(c, After(steps[..|steps| - 1]), steps[|steps| - 1]))
  }

  // ---------------------------------------------------------------- what always holds

  ghost predicate Invariant(c: Limits, s: State) {
    && s.pending == |In(s.calls, WAITING)|
    && s.running == |In(s.calls, {Running})|
    && s.pending <= c.maxPending
    && |In(s.calls, ON_THREAD)| <= c.maxWorkers
    && (forall id :: id in s.calls ==>
          s.calls[id].starts == if s.calls[id].phase in {Running, Finished} then 1 else 0)
  }

  lemma StepKeepsInvariant(c: Limits, s: State, step: Step)
    requires Invariant(c, s) && Enabled(c, s, step)
    ensures Invariant(c, Next(s, step))
  {
    var t := Next(s, step);
    var call := t.calls[step.id];
    assert t.calls == s.calls[step.id := call];
    MoveCounts(s.calls, step.id, call, WAITING);
    MoveCounts(s.calls, step.id, call, {Running});
    MoveCounts(s.calls, step.id, call, ON_THREAD);
  }

  lemma {:induction false} ReachableInvariant(c: Limits, steps: seq<Step>)
    requires Possible(c, steps)
    ensures Invariant(c, After(steps))
    decreases |steps|
  {
    if steps == [] {
      assert In(map[], WAITING) == In(map[], {Running}) == In(map[], ON_THREAD) == {};
    } else {
      var init, last := steps[..|steps| - 1], steps[|steps| - 1];
      ReachableInvariant(c, init);
      StepKeepsInvariant(c, After(init), last);
    }
  }

  lemma PhasesSplit(calls: Calls)
    ensures |In(calls, {Reserved, Queued, Picked, Running, Finished})|
         == |In(calls, WAITING)| + |In(calls, {Running})| + |In(calls, {Finished})|
    ensures |In(calls, WAITING + {Running})| == |In(calls, WAITING)| + |In(calls, {Running})|
  {
    var w, r, f := In(calls, WAITING), In(calls, {Running}), In(calls, {Finished});
    assert In(calls, {Reserved, Queued, Picked, Running, Finished}) == w + r + f;
    assert In(calls, WAITING + {Running}) == w + r;
    assert w !! r && (w + r) !! f;
  }

  /** In every interleaving: both counters stay within their limits, and accepted calls are
      exactly the pending, the running and the finished ones. */
  lemma CountersAreExact(c: Limits, steps: seq<Step>)
    requires Possible(c, steps)
    ensures var s := After(steps);
            && 0 <= s.pending <= c.maxPending
            && 0 <= s.running <= c.maxWorkers
            && |In(s.calls, {Reserved, Queued, Picked, Running, Finished})| == s.pending + s.running + |In(s.calls, {Finished})|
  {
    ReachableInvariant(c, steps);
    hide Possible, After;
    var calls := After(steps).calls;
    SubsetSize(In(calls, {Running}), In(calls, ON_THREAD));
    PhasesSplit(calls);
  }

  ghost function Entries(steps: seq<Step>, id: nat): nat {
    if steps == [] then 0
    else Entries(steps[..|steps| - 1], id) + (if steps[|steps| - 1] == Enter(id) then 1 else 0)
  }

  lemma {:induction false} StartsAreEntries(c: Limits, steps: seq<Step>, id: nat)
    requires Possible(c, steps)
    ensures var calls := After(steps).calls;
            Entries(steps, id) == if id in calls then calls[id].starts else 0
    decreases |steps|
  {
    if steps != [] {
      StartsAreEntries(c, steps[..|steps| - 1], id);
    }
  }

  /** Each accepted call starts at most once, and exactly once when it has finished. */
  lemma StartsAtMostOnce(c: Limits, steps: seq<Step>, id: nat)
    requires Possible(c, steps)
    ensures Entries(steps, id) <= 1
    ensures var calls := After(steps).calls;
            id in calls && calls[id].phase == Finished ==> Entries(steps, id) == 1
  {
    ReachableInvariant(c, steps);
    StartsAreEntries(c, steps, id);
  }

  // ---------------------------------------------------------------- bytes held

  ghost function Bytes(calls: Calls, ids: set<nat>): nat
    requires ids <= calls.Keys
  {
    if ids == {} then 0 else var id :| id in ids; calls[id].bytes + Bytes(calls, ids - {id})
  }

  lemma {:induction false} BytesBound(calls: Calls, ids: set<nat>, most: nat)
    requires ids <= calls.Keys
    requires forall id :: id in ids ==> calls[id].bytes <= most
    ensures Bytes(calls, ids) <= |ids| * most
  {
    if ids != {} {
      var id :| id in ids && Bytes(calls, ids) == calls[id].bytes + Bytes(calls, ids - {id});
      BytesBound(calls, ids - {id}, most);
      assert |ids| * most == (|ids| - 1) * most + most;
    }
  }

  /** What the calls not yet started hold, and what those and the running ones hold. */
  ghost function WaitingBytes(calls: Calls): nat {
    Bytes(calls, In(calls, WAITING))
  }

  ghost function HeldBytes(calls: Calls): nat {
    Bytes(calls, In(calls, WAITING + {Running}))
  }

  ghost predicate ReservedAtMost(steps: seq<Step>, most: nat) {
    forall step :: step in steps && step.Reserve? ==> step.bytes <= most
  }

  lemma {:induction false} CallBytes(c: Limits, steps: seq<Step>, most: nat)
    requires Possible(c, steps) && ReservedAtMost(steps, most)
    ensures var calls := After(steps).calls;
            forall id :: id in calls ==> calls[id].bytes <= most
    decreases |steps|
  {
    if steps != [] {
      var init, last := steps[..|steps| - 1], steps[|steps| - 1];
      CallBytes(c, init, most);
      assert After(steps) == Next(After(init), last);
      forall id | id in After(steps).calls ensures After(steps).calls[id].bytes <= most {
        assert id in After(init).calls || id == last.id;
      }
    }
  }

  /** Upload memory is bounded by arithmetic: what waits holds at most `maxPending` uploads,
      what waits or runs at most `maxPending + maxWorkers`. */
  lemma UploadMemory(c: Limits, steps: seq<Step>, most: nat)
    requires Possible(c, steps) && ReservedAtMost(steps, most)
    ensures var calls := After(steps).calls;
            WaitingBytes(calls) <= c.maxPending * most && HeldBytes(calls) <= (c.maxPending + c.maxWorkers) * most
  {
    hide Possible, After, In, Bytes;
    ReachableInvariant(c, steps);
    CallBytes(c, steps, most);
    var calls := After(steps).calls;
    CountersAreExact(c, steps);
    PhasesSplit(calls);
    BytesOfCalls(calls, most);
    Scale(|In(calls, WAITING)|, c.maxPending, most);
    Scale(|In(calls, WAITING + {Running})|, c.maxPending + c.maxWorkers, most);
  }

  lemma BytesOfCalls(calls: Calls, most: nat)
    requires forall id :: id in calls ==> calls[id].bytes <= most
    ensures WaitingBytes(calls) <= |In(calls, WAITING)| * most
    ensures HeldBytes(calls) <= |In(calls, WAITING + {Running})| * most
  {
    BytesBound(calls, In(calls, WAITING), most);
    BytesBound(calls, In(calls, WAITING + {Running}), most);
  }

  lemma Scale(x: nat, y: nat, most: nat)
    requires x <= y
    ensures x * most <= y * most && most * x <= most * y
  {}

  // ---------------------------------------------------------------- the bound is reached

  /** `w` calls brought to a pool thread, one after the other. */
  function Busy(w: nat, bytes: nat): (steps: seq<Step>)
    ensures forall step :: step in steps && step.Reserve? ==> step.bytes == bytes
  {
    if w == 0 then []
    else Busy(w - 1, bytes) + [Reserve(w - 1, bytes)] + [Enqueue(w - 1)] + [Pick(w - 1)] + [Enter(w - 1)]
  }

  /** Behind them, `p` reservations. */
  function Full(w: nat, p: nat, bytes: nat): (steps: seq<Step>)
    ensures forall step :: step in steps && step.Reserve? ==> step.bytes == bytes
  {
    if p == 0 then Busy(w, bytes) else Full(w, p - 1, bytes) + [Reserve(w + p - 1, bytes)]
  }

  lemma OneMoreStep(c: Limits, steps: seq<Step>, step: Step)
    requires Possible(c, steps) && Enabled(c, After(steps), step)
    ensures Possible(c, steps + [step]) && After(steps + [step]) == Next(After(steps), step)
  {
    assert (steps + [step])[..|steps|] == steps;
  }

  /** `w` running calls and `p` reserved ones, of `bytes` bytes each. */
  ghost predicate Loaded(s: State, w: nat, p: nat, bytes: nat) {
    && s.pending == p && s.running == w
    && (forall id: nat :: id in s.calls <==> id < w + p)
    && (forall id: nat :: id in s.calls ==> s.calls[id].bytes == bytes && s.calls[id].phase in {Running, Reserved})
  }

  lemma LoadedMore(s: State, w: nat, p: nat, bytes: nat)
    requires Loaded(s, w, p, bytes)
    ensures w + p !in s.calls && s.pending == p
    ensures Loaded(State(p + 1, s.running, s.calls[w + p := Call(Reserved, bytes, 0)]), w, p + 1, bytes)
    ensures p == 0 ==> Loaded(State(0, s.running + 1, s.calls[w := Call(Running, bytes, 1)]), w + 1, 0, bytes)
  {}

  lemma NothingLoaded(c: Limits, bytes: nat)
    ensures Possible(c, []) && Loaded(After([]), 0, 0, bytes)
  {}

  lemma {:induction false} BusyRun(c: Limits, w: nat, bytes: nat)
    requires c.maxPending >= 1 && w <= c.maxWorkers
    ensures Possible(c, Busy(w, bytes))
    ensures Loaded(After(Busy(w, bytes)), w, 0, bytes)
  {
    hide After, Possible, Loaded, In;
    if w == 0 {
      NothingLoaded(c, bytes);
    } else {
      var before := Busy(w - 1, bytes);
      var s := After(before);
      BusyRun(c, w - 1, bytes);
      LoadedMore(s, w - 1, 0, bytes);
      ReachableInvariant(c, before);
      LoadedThreads(c, s, w - 1, 0, bytes);
      StartOne(c, before, s, w - 1, bytes);
    }
  }

  lemma LoadedThreads(c: Limits, s: State, w: nat, p: nat, bytes: nat)
    requires Loaded(s, w, p, bytes) && Invariant(c, s)
    ensures |In(s.calls, ON_THREAD)| == w
  {
    assert In(s.calls, ON_THREAD) == In(s.calls, {Running});
  }

  /** A fresh call goes through to a free pool thread. */
  lemma StartOne(c: Limits, before: seq<Step>, s: State, id: nat, bytes: nat)
    requires Possible(c, before) && After(before) == s
    requires id !in s.calls && s.pending < c.maxPending && |In(s.calls, ON_THREAD)| < c.maxWorkers
    ensures var steps := before + [Reserve(id, bytes)] + [Enqueue(id)] + [Pick(id)] + [Enter(id)];
            && Possible(c, steps)
            && After(steps) == State(s.pending, s.running + 1, s.calls[id := Call(Running, bytes, 1)])
  {
    hide After, Possible, In;
    var s1 := before + [Reserve(id, bytes)];
    var s2 := s1 + [Enqueue(id)];
    var s3 := s2 + [Pick(id)];
    OneMoreStep(c, before, Reserve(id, bytes));
    OneMoreStep(c, s1, Enqueue(id));
    assert After(s2).calls == s.calls[id := Call(Queued, bytes, 0)];
    MoveCounts(s.calls, id, Call(Queued, bytes, 0), ON_THREAD);
    OneMoreStep(c, s2, Pick(id));
    OneMoreStep(c, s3, Enter(id));
    assert After(s3 + [Enter(id)]).calls == s.calls[id := Call(Running, bytes, 1)];
  }

  lemma {:induction false} FullRun(c: Limits, w: nat, p: nat, bytes: nat)
    requires c.maxPending >= 1 && w <= c.maxWorkers && p <= c.maxPending
    ensures Possible(c, Full(w, p, bytes))
    ensures Loaded(After(Full(w, p, bytes)), w, p, bytes)
  {
    hide After, Possible, Loaded;
    if p == 0 {
      BusyRun(c, w, bytes);
    } else {
      var before := Full(w, p - 1, bytes);
      FullRun(c, w, p - 1, bytes);
      LoadedMore(After(before), w, p - 1, bytes);
      OneMoreStep(c, before, Reserve(w + p - 1, bytes));
    }
  }

  lemma {:induction false} BytesExact(calls: Calls, ids: set<nat>, most: nat)
    requires ids <= calls.Keys
    requires forall id :: id in ids ==> calls[id].bytes == most
    ensures Bytes(calls, ids) == |ids| * most
  {
    if ids != {} {
      var id :| id in ids && Bytes(calls, ids) == calls[id].bytes + Bytes(calls, ids - {id});
      BytesExact(calls, ids - {id}, most);
      assert |ids| * most == (|ids| - 1) * most + most;
    }
  }

  /** Both bounds of UploadMemory are reached: some run has every pool thread busy and every
      place in the queue taken, each with the largest upload. */
  lemma UploadMemoryIsReached(c: Limits, most: nat)
    requires c.maxPending >= 1
    ensures var steps := Full(c.maxWorkers, c.maxPending, most);
            var calls := After(steps).calls;
            && Possible(c, steps) && ReservedAtMost(steps, most)
            && WaitingBytes(calls) == c.maxPending * most && HeldBytes(calls) == (c.maxPending + c.maxWorkers) * most
  {
    var steps := Full(c.maxWorkers, c.maxPending, most);
    FullRun(c, c.maxWorkers, c.maxPending, most);
    ReachableInvariant(c, steps);
    hide After, Possible, Full;
    var calls := After(steps).calls;
    PhasesSplit(calls);
    BytesExact(calls, In(calls, WAITING), most);
    BytesExact(calls, In(calls, WAITING + {Running}), most);
  }

  /** The documented product, queue places times largest upload, bounds what is held in every
      run exactly when there is no worker, no queue or nothing to hold. */
  lemma ProductBoundsHeld(c: Limits, most: nat)
    ensures (forall steps :: Possible(c, steps) && ReservedAtMost(steps, most) ==>
               HeldBytes(After(steps).calls) <= c.maxPending * most)
       <==> c.maxWorkers == 0 || c.maxPending == 0 || most == 0
  {
    hide Possible, After, ReservedAtMost, Full, HeldBytes, WaitingBytes;
    if c.maxPending == 0 {
      forall steps | Possible(c, steps) ensures HeldBytes(After(steps).calls) == 0 {
        NothingIsHeld(c, steps);
      }
    } else if c.maxWorkers == 0 || most == 0 {
      forall steps | Possible(c, steps) && ReservedAtMost(steps, most)
        ensures HeldBytes(After(steps).calls) <= c.maxPending * most
      {
        UploadMemory(c, steps, most);
        assert (c.maxPending + c.maxWorkers) * most == c.maxPending * most;
      }
    } else {
      UploadMemoryIsReached(c, most);
      assert (c.maxPending + c.maxWorkers) * most == c.maxPending * most + c.maxWorkers * most;
      assert c.maxWorkers * most > 0;
    }
  }

  /** Without a queue no call is ever accepted. */
  lemma {:induction false} NothingIsHeld(c: Limits, steps: seq<Step>)
    requires c.maxPending == 0 && Possible(c, steps)
    ensures After(steps) == INITIAL && WaitingBytes(After(steps).calls) == HeldBytes(After(steps).calls) == 0
    decreases |steps|
  {
    if steps != [] {
      NothingIsHeld(c, steps[..|steps| - 1]);
    } else {
      assert In(map[], WAITING) == In(map[], WAITING + {Running}) == {};
    }
  }

  // ---------------------------------------------------------------- the object

  class BoundedExecutor {
    const maxWorkers: nat
    const maxPending: nat
    var pending: int
    var running: int
    ghost var calls: Calls

    constructor (maxWorkers: nat, maxPending: nat)
      ensures this.maxWorkers == maxWorkers && this.maxPending == maxPending
      ensures Now() == INITIAL && Invariant(Bounds(), Now())
    {
      this.maxWorkers, this.maxPending := maxWorkers, maxPending;
      pending, running := 0, 0;
      calls := map[];
      new;
      ReachableInvariant(Bounds(), []);
    }

    ghost function Bounds(): Limits {
      Limits(maxWorkers, maxPending)
    }

    ghost function Now(): State
      reads this
    {
      State(pending, running, calls)
    }

    /** First lock section of `submit`: refuse at capacity, else reserve a place. */
    method TryReserve(ghost id: nat, ghost bytes: nat) returns (ok: bool)
      requires Invariant(Bounds(), Now()) && id !in calls
      modifies this
      ensures Invariant(Bounds(), Now())
      ensures ok <==> |In(old(calls), WAITING)| < maxPending
      ensures Now() == if ok then Next(old(Now()), Reserve(id, bytes)) else old(Now())
    {
      if pending >= maxPending {
        return false;
      }
      StepKeepsInvariant(Bounds(), Now(), Reserve(id, bytes));
      pending := pending + 1;
      calls := calls[id := Call(Reserved, bytes, 0)];
      return true;
    }

    /** The pool refused the call: undo the reservation. */
    method Undo(ghost id: nat)
      requires Invariant(Bounds(), Now()) && Enabled(Bounds(), Now(), Withdraw(id))
      modifies this
      ensures Invariant(Bounds(), Now()) && Now() == Next(old(Now()), Withdraw(id))
    {
      StepKeepsInvariant(Bounds(), Now(), Withdraw(id));
      pending := pending - 1;
      calls := Move(calls, id, Withdrawn);
    }

    /** First lock section of the wrapper. */
    method Begin(ghost id: nat)
      requires Invariant(Bounds(), Now()) && Enabled(Bounds(), Now(), Enter(id))
      modifies this
      ensures Invariant(Bounds(), Now()) && Now() == Next(old(Now()), Enter(id))
    {
      StepKeepsInvariant(Bounds(), Now(), Enter(id));
      pending := pending - 1;
      running := running + 1;
      calls := calls[id := calls[id].(phase := Running, starts := calls[id].starts + 1)];
    }

    /** Last lock section of the wrapper, reached however the call ended. */
    method End(ghost id: nat)
      requires Invariant(Bounds(), Now()) && Enabled(Bounds(), Now(), Leave(id))
      modifies this
      ensures Invariant(Bounds(), Now()) && Now() == Next(old(Now()), Leave(id))
    {
      StepKeepsInvariant(Bounds(), Now(), Leave(id));
      running := running - 1;
      calls := Move(calls, id, Finished);
    }
  }
}
