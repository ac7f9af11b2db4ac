/** The process-wide daily cap on model calls. */
module CoachBudget {
  import opened Clock

  const SECONDS_PER_DAY := 86400.0

  function DayOf(now: real): int {
    (now / SECONDS_PER_DAY).Floor
  }

  lemma DayHolds(now: real)
    ensures DayOf(now) as real * 86400.0 <= now < (DayOf(now) + 1) as real * 86400.0
  {
    var days := now / SECONDS_PER_DAY;
    assert days.Floor as real <= days < days.Floor as real + 1.0;
  }

  datatype Tally = Tally(day: int, calls: nat)

  /** Whether a call is granted; a cap of 0 means no cap. */
  function Grants(cap: nat, t: Tally, now: real): bool {
    var calls := if DayOf(now) != t.day then 0 else t.calls;
    cap == 0 || calls < cap
  }

  function Taken(cap: nat, t: Tally, now: real): Tally {
    var calls := if DayOf(now) != t.day then 0 else t.calls;
    Tally(DayOf(now), if Grants(cap, t, now) then calls + 1 else calls)
  }

  /** The tally after a run of requests. */
  function TallyAfter(cap: nat, t: Tally, times: seq<real>): Tally
    decreases |times|
  {
    if times == [] then t else TallyAfter(cap, Taken(cap, t, times[0]), times[1..])
  }

  class CoachBudget {
    const maxCallsPerDay: nat
    var tally: Tally
    /** The times at which calls were asked for, by whichever check. */
    ghost var asked: seq<real>

    constructor (maxCallsPerDay: nat)
      ensures this.maxCallsPerDay == maxCallsPerDay && asked == [] && Valid()
    {
      this.maxCallsPerDay := maxCallsPerDay;
      tally := Tally(0, 0);
      asked := [];
    }

    ghost predicate Valid()
      reads this
    {
      tally == TallyAfter(maxCallsPerDay, Tally(0, 0), asked)
    }

    method Take(now: real) returns (ok: bool)
      requires Valid()
      modifies this
      ensures Valid()
      ensures ok == Grants(maxCallsPerDay, old(tally), now)
      ensures tally == Taken(maxCallsPerDay, old(tally), now)
      ensures asked == old(asked) + [now]
      ensures tally.day as real * 86400.0 <= now < (tally.day + 1) as real * 86400.0
    {
      DayHolds(now);
      OneMore(maxCallsPerDay, Tally(0, 0), asked, now);
      asked := asked + [now];
      var day := DayOf(now);
      if day != tally.day {
        tally := Tally(day, 0);
      }
      if maxCallsPerDay != 0 && tally.calls >= maxCallsPerDay {
        return false;
      }
      tally := tally.(calls := tally.calls + 1);
      return true;
    }
  }

  /** The calls granted on `day` over a run of requests. */
  function GrantedOn(cap: nat, t: Tally, times: seq<real>, day: int): nat
    decreases |times|
  {
    if times == [] then 0
    else (if DayOf(times[0]) == day && Grants(cap, t, times[0]) then 1 else 0)
         + GrantedOn(cap, Taken(cap, t, times[0]), times[1..], day)
  }

  lemma {:induction false} OneMore(cap: nat, t: Tally, times: seq<real>, now: real)
    ensures var before := TallyAfter(cap, t, times);
            && TallyAfter(cap, t, times + [now]) == Taken(cap, before, now)
            && (forall day :: GrantedOn(cap, t, times + [now], day)
                  == GrantedOn(cap, t, times, day) + (if DayOf(now) == day && Grants(cap, before, now) then 1 else 0))
    decreases |times|
  {
    if times == [] {
      assert (times + [now])[1..] == [];
    } else {
      assert (times + [now])[1..] == times[1..] + [now];
      OneMore(cap, Taken(cap, t, times[0]), times[1..], now);
    }
  }

  // ---------------------------------------------------------------- when the cap holds

  ghost predicate AsksOn(times: seq<real>, day: int) {
    exists k :: 0 <= k < |times| && DayOf(times[k]) == day
  }

  /** A request of `day` follows a request of another day. */
  ghost predicate Resumes(times: seq<real>, day: int) {
    exists j, k :: 0 <= j < k < |times| && DayOf(times[j]) != day && DayOf(times[k]) == day
  }

  /** No day's requests are interrupted by another day's. */
  ghost predicate Contiguous(times: seq<real>) {
    forall i, j, k :: 0 <= i < j < k < |times| && DayOf(times[i]) == DayOf(times[k]) ==> DayOf(times[j]) == DayOf(times[i])
  }

  lemma ContiguousRest(times: seq<real>)
    requires times != [] && Contiguous(times)
    ensures Contiguous(times[1..]) && !Resumes(times[1..], DayOf(times[0]))
  {
    var rest, day := times[1..], DayOf(times[0]);
    forall j, k | 0 <= j < k < |rest| && DayOf(rest[k]) == day ensures DayOf(rest[j]) == day {
      assert rest[j] == times[j + 1] && rest[k] == times[k + 1];
    }
  }

  lemma {:induction false} NotAskedNotGranted(cap: nat, t: Tally, times: seq<real>, day: int)
    requires !AsksOn(times, day)
    ensures GrantedOn(cap, t, times, day) == 0
    decreases |times|
  {
    if times != [] {
      var rest := times[1..];
      assert forall k :: 0 <= k < |rest| ==> rest[k] == times[k + 1];
      NotAskedNotGranted(cap, Taken(cap, t, times[0]), rest, day);
    }
  }

  lemma {:induction false} GrantedFits(cap: nat, t: Tally, times: seq<real>, day: int)
    requires cap > 0 && t.calls <= cap && Contiguous(times)
    requires t.calls > 0 ==> !Resumes(times, t.day)
    ensures GrantedOn(cap, t, times, day) <= if t.day == day then cap - t.calls else cap
    decreases |times|
  {
    if times != [] {
      var next, rest := Taken(cap, t, times[0]), times[1..];
      ContiguousRest(times);
      GrantedFits(cap, next, rest, day);
      if t.day == day && t.calls > 0 && DayOf(times[0]) != day {
        forall k | 0 <= k < |rest| ensures DayOf(rest[k]) != day {
          assert rest[k] == times[k + 1];
        }
        NotAskedNotGranted(cap, next, rest, day);
      }
    }
  }

  /** A day on which nothing was granted yet gets its first call. */
  lemma {:induction false} FirstIsGranted(t: Tally, times: seq<real>, day: int)
    requires AsksOn(times, day) && (t.day != day || t.calls == 0)
    ensures GrantedOn(1, t, times, day) >= 1
    decreases |times|
  {
    if DayOf(times[0]) != day {
      var k :| 0 <= k < |times| && DayOf(times[k]) == day;
      assert times[1..][k - 1] == times[k];
      FirstIsGranted(Taken(1, t, times[0]), times[1..], day);
    }
  }

  /** A day that resumes after another day starts from zero again. */
  lemma {:induction false} ResumedIsGranted(t: Tally, times: seq<real>, day: int)
    requires Resumes(times, day)
    ensures GrantedOn(1, t, times, day) >= 1
    decreases |times|
  {
    var j, k :| 0 <= j < k < |times| && DayOf(times[j]) != day && DayOf(times[k]) == day;
    var next, rest := Taken(1, t, times[0]), times[1..];
    assert rest[k - 1] == times[k];
    if DayOf(times[0]) != day {
      FirstIsGranted(next, rest, day);
    } else {
      assert rest[j - 1] == times[j];
      ResumedIsGranted(next, rest, day);
    }
  }

  lemma {:induction false} InterruptedDayGrantsTwice(t: Tally, times: seq<real>, i: nat, j: nat, k: nat)
    requires i < j < k < |times| && DayOf(times[i]) == DayOf(times[k]) && DayOf(times[j]) != DayOf(times[i])
    requires t.day != DayOf(times[i]) || t.calls == 0
    ensures GrantedOn(1, t, times, DayOf(times[i])) >= 2
    decreases |times|
  {
    var next, rest, day := Taken(1, t, times[0]), times[1..], DayOf(times[i]);
    assert rest[j - 1] == times[j] && rest[k - 1] == times[k];
    if DayOf(times[0]) == day {
      ResumedIsGranted(next, rest, day);
    } else {
      assert rest[i - 1] == times[i];
      InterruptedDayGrantsTwice(next, rest, i - 1, j - 1, k - 1);
    }
  }

  /** No day grants more than a non-zero cap, whatever the cap, exactly when no day's requests
      are interrupted by another day's: each return to a day starts its count anew. */
  lemma CapHoldsIffContiguous(times: seq<real>)
    ensures Contiguous(times) <==> forall cap: nat, day :: cap > 0 ==> GrantedOn(cap, Tally(0, 0), times, day) <= cap
  {
    if Contiguous(times) {
      forall cap: nat, day | cap > 0 ensures GrantedOn(cap, Tally(0, 0), times, day) <= cap {
        GrantedFits(cap, Tally(0, 0), times, day);
      }
    } else {
      var i, j, k :| 0 <= i < j < k < |times| && DayOf(times[i]) == DayOf(times[k]) && DayOf(times[j]) != DayOf(times[i]);
      InterruptedDayGrantsTwice(Tally(0, 0), times, i, j, k);
    }
  }

  // ---------------------------------------------------------------- a given cap

  /** The lengths of the stretches of uninterrupted requests of `day`, `run` requests into one. */
  function Blocks(times: seq<real>, day: int, run: nat): seq<nat>
    decreases |times|
  {
    if times == [] then [run]
    else if DayOf(times[0]) == day then Blocks(times[1..], day, run + 1)
    else [run] + Blocks(times[1..], day, 0)
  }

  /** Each stretch counts at most `cap` times; a cap of 0 means no cap. */
  function Capped(cap: nat, blocks: seq<nat>): nat {
    if blocks == [] then 0 else AtMost(cap, blocks[0]) + Capped(cap, blocks[1..])
  }

  function AtMost(cap: nat, n: nat): nat {
    if cap == 0 || n < cap then n else cap
  }

  lemma {:induction false} GrantedFromRun(cap: nat, t: Tally, times: seq<real>, day: int, run: nat)
    requires if t.day == day then t.calls == AtMost(cap, run) else run == 0
    ensures AtMost(cap, run) + GrantedOn(cap, t, times, day) == Capped(cap, Blocks(times, day, run))
    decreases |times|
  {
    if times == [] {
      assert Capped(cap, [run]) == AtMost(cap, run) + Capped(cap, []);
    } else {
      var next, rest := Taken(cap, t, times[0]), times[1..];
      if DayOf(times[0]) == day {
        GrantedFromRun(cap, next, rest, day, run + 1);
      } else {
        GrantedFromRun(cap, next, rest, day, 0);
        var others := Blocks(rest, day, 0);
        assert ([run] + others)[1..] == others;
      }
    }
  }

  /** Exactly how many calls a day is granted, whatever the clock does: each stretch of the day's
      requests that no other day interrupts is granted up to the cap anew. So a given cap holds
      on that day exactly when these sum up to no more than the cap. */
  lemma GrantedIsCappedBlocks(cap: nat, times: seq<real>, day: int)
    ensures GrantedOn(cap, Tally(0, 0), times, day) == Capped(cap, Blocks(times, day, 0))
  {
    GrantedFromRun(cap, Tally(0, 0), times, day, 0);
  }

  lemma LaterDay(a: real, b: real)
    requires a <= b
    ensures DayOf(a) <= DayOf(b)
  {
    assert a / SECONDS_PER_DAY <= b / SECONDS_PER_DAY;
  }

  /** With a cap and a clock that does not run backwards, no day grants more than the cap. */
  lemma DailyCap(cap: nat, times: seq<real>, day: int, from: real)
    requires cap > 0 && MovesOn(times, from)
    ensures Contiguous(times) && GrantedOn(cap, Tally(0, 0), times, day) <= cap
  {
    forall i, j, k | 0 <= i < j < k < |times| && DayOf(times[i]) == DayOf(times[k])
      ensures DayOf(times[j]) == DayOf(times[i])
    {
      LaterDay(times[i], times[j]);
      LaterDay(times[j], times[k]);
    }
    CapHoldsIffContiguous(times);
  }

  /** A clock set back over midnight and forward again grants the day's calls a second time. */
  lemma ClockSetBack()
    ensures GrantedOn(1, Tally(0, 0), [86400.0, 0.0, 86400.0], 1) == 2
  {
    var times := [86400.0, 0.0, 86400.0];
    assert DayOf(86400.0) == 1 && DayOf(0.0) == 0;
    assert times[1..] == [0.0, 86400.0];
    assert times[1..][1..] == [86400.0];
    assert GrantedOn(1, Tally(0, 1), [86400.0], 1) == 1;
    assert GrantedOn(1, Tally(1, 1), [0.0, 86400.0], 1) == 1;
  }
}
