/** The usage ledger and the sliding quota it enforces. */
module UsageQuota {
  import opened Matches

  type Ledger = map<string, seq<real>>

  function TimesOf(hits: Ledger, owner: string): seq<real> {
    if owner in hits then hits[owner] else []
  }

  /** The acceptances at or after `since`, in order. */
  function Since(times: seq<real>, since: real): (r: seq<real>)
    ensures |r| <= |times|
  {
    if times == [] then []
    else Since(times[..|times| - 1], since) + (if times[|times| - 1] >= since then [times[|times| - 1]] else [])
  }

  function Record(hits: Ledger, owner: string, now: real): Ledger {
    hits[owner := TimesOf(hits, owner) + [now]]
  }

  function Used(hits: Ledger, owner: string, since: real): nat {
    |Since(TimesOf(hits, owner), since)|
  }

  function Swept(hits: Ledger, olderThan: real): Ledger {
    map owner | owner in hits && Since(hits[owner], olderThan) != [] :: Since(hits[owner], olderThan)
  }

  // ---------------------------------------------------------------- what counting and sweeping mean

  /** The places of the acceptances at or after `since`. */
  ghost function Recent(times: seq<real>, since: real): set<nat> {
    set i: nat | i < |times| && since <= times[i]
  }

  lemma {:induction false} SinceCounts(times: seq<real>, since: real)
    ensures |Since(times, since)| == |Recent(times, since)|
  {
    if times != [] {
      var last := |times| - 1;
      SinceCounts(times[..last], since);
      assert Recent(times, since) == Recent(times[..last], since) + (if times[last] >= since then {last} else {});
    }
  }

  /** `kept` is `times` without what is older than `olderThan`, each as often as it was. */
  ghost predicate KeepsRecent(times: seq<real>, kept: seq<real>, olderThan: real) {
    forall t: real :: multiset(kept)[t] == if t < olderThan then 0 else multiset(times)[t]
  }

  lemma {:induction false} SinceKeepsRecent(times: seq<real>, olderThan: real)
    ensures KeepsRecent(times, Since(times, olderThan), olderThan)
  {
    if times != [] {
      var init, last := times[..|times| - 1], times[|times| - 1];
      assert times == init + [last];
      SinceKeepsRecent(init, olderThan);
    }
  }

  /** A sweep leaves every owner what is recent enough, and forgets owners who have none. */
  lemma SweptMeaning(hits: Ledger, olderThan: real)
    ensures var after := Swept(hits, olderThan);
            && (forall owner :: KeepsRecent(TimesOf(hits, owner), TimesOf(after, owner), olderThan))
            && (forall owner :: owner in after ==> owner in hits && |after[owner]| > 0)
  {
    forall owner ensures KeepsRecent(TimesOf(hits, owner), TimesOf(Swept(hits, olderThan), owner), olderThan) {
      SinceKeepsRecent(TimesOf(hits, owner), olderThan);
    }
  }

  // ---------------------------------------------------------------- totals

  ghost function Total(hits: Ledger): nat {
    if hits == map[] then 0
    else var owner :| owner in hits; |hits[owner]| + Total(hits - {owner})
  }

  lemma {:induction false} TotalWithout(hits: Ledger, owner: string)
    requires owner in hits
    ensures Total(hits) == |hits[owner]| + Total(hits - {owner})
    decreases |hits|
  {
    var first :| first in hits && Total(hits) == |hits[first]| + Total(hits - {first});
    if first != owner {
      assert (hits - {first}).Keys == hits.Keys - {first};
      TotalWithout(hits - {first}, owner);
      assert (hits - {owner}).Keys == hits.Keys - {owner};
      TotalWithout(hits - {owner}, first);
      assert hits - {first} - {owner} == hits - {owner} - {first};
    }
  }

  lemma TotalAfterChange(hits: Ledger, owner: string, times: seq<real>)
    requires owner in hits
    ensures Total(hits[owner := times]) == Total(hits) - |hits[owner]| + |times|
  {
    TotalWithout(hits, owner);
    TotalWithout(hits[owner := times], owner);
    assert hits[owner := times] - {owner} == hits - {owner};
  }

  class InMemoryUsageLedger {
    var hits: Ledger

    constructor ()
      ensures hits == map[]
    {
      hits := map[];
    }

    method RecordNow(owner: string, now: real)
      modifies this
      ensures hits == Record(old(hits), owner, now)
      ensures owner in hits && hits[owner] == TimesOf(old(hits), owner) + [now]
      ensures forall other :: other != owner ==> TimesOf(hits, other) == TimesOf(old(hits), other)
    {
      var times := if owner in hits then hits[owner] else [];
      hits := hits[owner := times + [now]];
    }

    method Count(owner: string, since: real) returns (n: nat)
      ensures n == Used(hits, owner, since)
      ensures n == if owner in hits then |Recent(hits[owner], since)| else 0
    {
      var times := TimesOf(hits, owner);
      n := 0;
      for i := 0 to |times|
        invariant n == |Since(times[..i], since)|
      {
        assert times[..i + 1][..i] == times[..i];
        if times[i] >= since {
          n := n + 1;
        }
      }
      assert times[..|times|] == times;
      SinceCounts(times, since);
    }

    /** Drop what is older; what was removed and what is kept add up to what was recorded. */
    method Sweep(olderThan: real) returns (removed: nat)
      modifies this
      ensures hits == Swept(old(hits), olderThan)
      ensures forall owner :: KeepsRecent(TimesOf(old(hits), owner), TimesOf(hits, owner), olderThan)
      ensures forall owner :: owner in hits ==> owner in old(hits) && |hits[owner]| > 0
      ensures removed + Total(hits) == Total(old(hits))
    {
      removed := 0;
      SweptMeaning(hits, olderThan);
      hide KeepsRecent, TimesOf;
      var owners := hits.Keys;
      assert hits == PartlySwept(hits, owners, olderThan);
      while owners != {}
        invariant owners <= old(hits).Keys
        invariant hits == PartlySwept(old(hits), owners, olderThan)
        invariant removed + Total(hits) == Total(old(hits))
        decreases |owners|
      {
        var owner :| owner in owners;
        var kept := Since(hits[owner], olderThan);
        removed := removed + |hits[owner]| - |kept|;
        SweepOne(old(hits), owners, olderThan, owner);
        if kept != [] {
          TotalAfterChange(hits, owner, kept);
          hits := hits[owner := kept];
        } else {
          TotalWithout(hits, owner);
          hits := hits - {owner};
        }
        owners := owners - {owner};
      }
    }
  }

  /** The ledger while `owners` are still to be swept. */
  ghost function PartlySwept(hits: Ledger, owners: set<string>, olderThan: real): Ledger {
    map o | o in hits && (o in owners || Since(hits[o], olderThan) != []) ::
      if o in owners then hits[o] else Since(hits[o], olderThan)
  }

  lemma SweepOne(hits: Ledger, owners: set<string>, olderThan: real, owner: string)
    requires owner in owners && owners <= hits.Keys
    ensures var before, kept := PartlySwept(hits, owners, olderThan), Since(hits[owner], olderThan);
            && owner in before && before[owner] == hits[owner]
            && PartlySwept(hits, owners - {owner}, olderThan)
               == if kept != [] then before[owner := kept] else before - {owner}
  {}

  // ---------------------------------------------------------------- submissions one at a time

  /** `quota <= 0` means unlimited; `window` is in seconds. */
  datatype Config = Config(quota: int, window: real)

  datatype Event =
    /** The quota is checked, then, unless something else refuses the upload, it is recorded. */
    | Submit(owner: string, checkedAt: real, recordedAt: real, otherwiseFine: bool)
    | Sweep(olderThan: real, at: real)

  predicate WithinQuota(c: Config, hits: Ledger, owner: string, now: real) {
    c.quota <= 0 || Used(hits, owner, now - c.window) < c.quota
  }

  /** Whether the event recorded an acceptance. */
  function Accepts(c: Config, hits: Ledger, e: Event): bool {
    e.Submit? && WithinQuota(c, hits, e.owner, e.checkedAt) && e.otherwiseFine
  }

  function Next(c: Config, hits: Ledger, e: Event): Ledger {
    if e.Sweep? then Swept(hits, e.olderThan)
    else if Accepts(c, hits, e) then Record(hits, e.owner, e.recordedAt)
    else hits
  }

  function Decisions(c: Config, hits: Ledger, events: seq<Event>): (r: seq<bool>)
    ensures |r| == |events|
    decreases |events|
  {
    if events == [] then []
    else [Accepts(c, hits, events[0])] + Decisions(c, Next(c, hits, events[0]), events[1..])
  }

  /** The same submissions against a ledger that is never swept. */
  function DecisionsUnswept(c: Config, hits: Ledger, events: seq<Event>): (r: seq<bool>)
    ensures |r| == |events|
    decreases |events|
  {
    if events == [] then []
    else
      [Accepts(c, hits, events[0])]
      + DecisionsUnswept(c, if events[0].Sweep? then hits else Next(c, hits, events[0]), events[1..])
  }

  /** Submissions follow one another, and a sweep only drops what is older than the window. */
  ghost predicate OneAtATime(c: Config, events: seq<Event>, from: real)
    decreases |events|
  {
    events == [] ||
    match events[0]
    case Submit(_, checkedAt, recordedAt, _) =>
      from <= checkedAt <= recordedAt && OneAtATime(c, events[1..], recordedAt)
    case Sweep(olderThan, at) =>
      from <= at && olderThan <= at - c.window && OneAtATime(c, events[1..], at)
  }

  // ---------------------------------------------------------------- sweeping is invisible

  lemma {:induction false} SinceTwice(times: seq<real>, first: real, second: real)
    requires first <= second
    ensures Since(Since(times, first), second) == Since(times, second)
  {
    if times != [] {
      var init, last := times[..|times| - 1], times[|times| - 1];
      SinceTwice(init, first, second);
      if last >= first {
        assert (Since(init, first) + [last])[..|Since(init, first)|] == Since(init, first);
      } else {
        assert Since(times, first) == Since(init, first);
      }
    }
  }

  lemma SinceAppend(times: seq<real>, t: real, since: real)
    ensures Since(times + [t], since) == Since(times, since) + (if t >= since then [t] else [])
  {
    assert (times + [t])[..|times|] == times;
  }

  /** Both ledgers agree on everything at or after `cut`. */
  ghost predicate SameRecent(a: Ledger, b: Ledger, cut: real) {
    forall owner :: Since(TimesOf(a, owner), cut) == Since(TimesOf(b, owner), cut)
  }

  lemma SameRecentLater(a: Ledger, b: Ledger, cut: real, later: real)
    requires SameRecent(a, b, cut) && cut <= later
    ensures SameRecent(a, b, later)
  {
    forall owner ensures Since(TimesOf(a, owner), later) == Since(TimesOf(b, owner), later) {
      SinceTwice(TimesOf(a, owner), cut, later);
      SinceTwice(TimesOf(b, owner), cut, later);
    }
  }

  lemma SweptSameRecent(a: Ledger, b: Ledger, olderThan: real, cut: real)
    requires SameRecent(a, b, cut) && olderThan <= cut
    ensures SameRecent(Swept(a, olderThan), b, cut)
  {
    forall owner ensures Since(TimesOf(Swept(a, olderThan), owner), cut) == Since(TimesOf(b, owner), cut) {
      assert TimesOf(Swept(a, olderThan), owner) == Since(TimesOf(a, owner), olderThan);
      SinceTwice(TimesOf(a, owner), olderThan, cut);
    }
  }

  lemma RecordSameRecent(a: Ledger, b: Ledger, cut: real, owner: string, t: real)
    requires SameRecent(a, b, cut)
    ensures SameRecent(Record(a, owner, t), Record(b, owner, t), cut)
  {
    forall o ensures Since(TimesOf(Record(a, owner, t), o), cut) == Since(TimesOf(Record(b, owner, t), o), cut) {
      assert Since(TimesOf(a, o), cut) == Since(TimesOf(b, o), cut);
      if o == owner {
        SinceAppend(TimesOf(a, owner), t, cut);
        SinceAppend(TimesOf(b, owner), t, cut);
      }
    }
  }

  lemma SameUsed(a: Ledger, b: Ledger, owner: string, cut: real)
    requires SameRecent(a, b, cut)
    ensures Used(a, owner, cut) == Used(b, owner, cut)
  {}

  lemma SubmitUnderSweep(c: Config, a: Ledger, b: Ledger, e: Event, from: real)
    requires e.Submit? && from <= e.checkedAt <= e.recordedAt
    requires SameRecent(a, b, from - c.window)
    ensures Accepts(c, a, e) == Accepts(c, b, e)
    ensures SameRecent(Next(c, a, e), Next(c, b, e), e.recordedAt - c.window)
  {
    hide SameRecent, Since, Record;
    var cut := e.checkedAt - c.window;
    SameRecentLater(a, b, from - c.window, cut);
    SameUsed(a, b, e.owner, cut);
    if Accepts(c, a, e) {
      RecordSameRecent(a, b, cut, e.owner, e.recordedAt);
    }
    SameRecentLater(Next(c, a, e), Next(c, b, e), cut, e.recordedAt - c.window);
  }

  /** Sweeping what is older than the window changes no decision. */
  lemma {:induction false} SweepingIsInvisible(c: Config, a: Ledger, b: Ledger, events: seq<Event>, from: real)
    requires OneAtATime(c, events, from)
    requires SameRecent(a, b, from - c.window)
    ensures Decisions(c, a, events) == DecisionsUnswept(c, b, events)
    decreases |events|
  {
    hide SameRecent, Swept, Record, WithinQuota;
    if events != [] {
      var e := events[0];
      match e
      case Submit(_, _, recordedAt, _) =>
        SubmitUnderSweep(c, a, b, e, from);
        SweepingIsInvisible(c, Next(c, a, e), Next(c, b, e), events[1..], recordedAt);
      case Sweep(olderThan, at) =>
        SameRecentLater(a, b, from - c.window, at - c.window);
        SweptSameRecent(a, b, olderThan, at - c.window);
        SweepingIsInvisible(c, Next(c, a, e), b, events[1..], at);
    }
  }

  // ---------------------------------------------------------------- the bound

  function CountIn(times: seq<real>, lo: real, hi: real): nat {
    if times == [] then 0
    else CountIn(times[..|times| - 1], lo, hi) + (if lo <= times[|times| - 1] <= hi then 1 else 0)
  }

  /** How many acceptances of `owner` the run recorded in the closed interval. */
  function AcceptedIn(events: seq<Event>, decisions: seq<bool>, owner: string, lo: real, hi: real): nat
    requires |events| == |decisions|
    decreases |events|
  {
    if events == [] then 0
    else
      (if decisions[0] && events[0].Submit? && events[0].owner == owner && lo <= events[0].recordedAt <= hi then 1 else 0)
      + AcceptedIn(events[1..], decisions[1..], owner, lo, hi)
  }

  /** The submissions of `owner` accepted and recorded in the closed interval. */
  ghost function AcceptedWithin(events: seq<Event>, decisions: seq<bool>, owner: string, lo: real, hi: real): set<nat>
    requires |events| == |decisions|
  {
    set i: nat | i < |events| && decisions[i] && events[i].Submit? && events[i].owner == owner && lo <= events[i].recordedAt <= hi
  }

  lemma {:induction false} AcceptedInCounts(events: seq<Event>, decisions: seq<bool>, owner: string, lo: real, hi: real)
    requires |events| == |decisions|
    ensures AcceptedIn(events, decisions, owner, lo, hi) == |AcceptedWithin(events, decisions, owner, lo, hi)|
    decreases |events|
  {
    var all := AcceptedWithin(events, decisions, owner, lo, hi);
    if events != [] {
      AcceptedInCounts(events[1..], decisions[1..], owner, lo, hi);
      var rest := AcceptedWithin(events[1..], decisions[1..], owner, lo, hi);
      var first: set<nat> := if 0 in all then {0} else {};
      ShiftCount(rest, all - first);
    }
  }

  /** As many places when all move up by one. */
  lemma {:induction false} ShiftCount(s: set<nat>, t: set<nat>)
    requires forall i: nat :: i in s <==> i + 1 in t
    requires 0 !in t
    ensures |s| == |t|
  {
    if t == {} {
      assert s == {};
    } else {
      var i :| i in t;
      var j: nat := i - 1;
      assert j in s;
      ShiftCount(s - {j}, t - {i});
    }
  }

  lemma {:induction false} CountInAtMostUsed(times: seq<real>, lo: real, hi: real, since: real)
    requires since <= lo
    ensures CountIn(times, lo, hi) <= |Since(times, since)|
  {
    if times != [] {
      CountInAtMostUsed(times[..|times| - 1], lo, hi, since);
    }
  }

  /** One submission: what it adds to the interval was still free when it was checked. */
  lemma SubmitFits(c: Config, hits: Ledger, e: Event, owner: string, lo: real)
    requires c.quota >= 1 && e.Submit? && e.checkedAt <= e.recordedAt
    requires CountIn(TimesOf(hits, owner), lo, lo + c.window) <= c.quota
    ensures var after := CountIn(TimesOf(Next(c, hits, e), owner), lo, lo + c.window);
            && after <= c.quota
            && after == CountIn(TimesOf(hits, owner), lo, lo + c.window)
                        + (if Accepts(c, hits, e) && e.owner == owner && lo <= e.recordedAt <= lo + c.window then 1 else 0)
  {
    var times := TimesOf(hits, owner);
    assert (times + [e.recordedAt])[..|times|] == times;
    if e.recordedAt <= lo + c.window {
      CountInAtMostUsed(times, lo, lo + c.window, e.checkedAt - c.window);
    }
  }

  lemma {:induction false} UnsweptBound(c: Config, hits: Ledger, events: seq<Event>, owner: string, lo: real, from: real)
    requires c.quota >= 1
    requires OneAtATime(c, events, from)
    requires CountIn(TimesOf(hits, owner), lo, lo + c.window) <= c.quota
    ensures CountIn(TimesOf(hits, owner), lo, lo + c.window)
            + AcceptedIn(events, DecisionsUnswept(c, hits, events), owner, lo, lo + c.window) <= c.quota
    decreases |events|
  {
    hide TimesOf, Record, WithinQuota, Swept, CountIn;
    if events != [] {
      var e := events[0];
      if e.Sweep? {
        assert DecisionsUnswept(c, hits, events)[1..] == DecisionsUnswept(c, hits, events[1..]);
        UnsweptBound(c, hits, events[1..], owner, lo, e.at);
      } else {
        assert DecisionsUnswept(c, hits, events)[1..] == DecisionsUnswept(c, Next(c, hits, e), events[1..]);
        SubmitFits(c, hits, e, owner, lo);
        UnsweptBound(c, Next(c, hits, e), events[1..], owner, lo, e.recordedAt);
      }
    }
  }

  /** Although an acceptance is recorded only after the check, no closed interval as long as
      the window ever holds more than `quota` recorded acceptances of one user. */
  lemma QuotaBound(c: Config, events: seq<Event>, owner: string, lo: real, from: real)
    requires c.quota >= 1
    requires OneAtATime(c, events, from)
    ensures |AcceptedWithin(events, Decisions(c, map[], events), owner, lo, lo + c.window)| <= c.quota
  {
    SweepingIsInvisible(c, map[], map[], events, from);
    UnsweptBound(c, map[], events, owner, lo, from);
    AcceptedInCounts(events, Decisions(c, map[], events), owner, lo, lo + c.window);
  }

  // ---------------------------------------------------------------- who is refused

  /** How many acceptances of `owner` the run recorded at or after `since`. */
  function AcceptedSince(events: seq<Event>, decisions: seq<bool>, owner: string, since: real): nat
    requires |events| == |decisions|
    decreases |events|
  {
    if events == [] then 0
    else
      (if decisions[0] && events[0].Submit? && events[0].owner == owner && events[0].recordedAt >= since then 1 else 0)
      + AcceptedSince(events[1..], decisions[1..], owner, since)
  }

  /** Whether event `i` should be accepted on top of the ledger `hits`. */
  ghost predicate Deserves(c: Config, hits: Ledger, events: seq<Event>, decisions: seq<bool>, i: nat)
    requires |decisions| == |events| && i < |events| && events[i].Submit?
  {
    var e := events[i];
    var since := e.checkedAt - c.window;
    && e.otherwiseFine
    && (c.quota <= 0
        || |Since(TimesOf(hits, e.owner), since)| + AcceptedSince(events[..i], decisions[..i], e.owner, since) < c.quota)
  }

  lemma DeservesLater(c: Config, hits: Ledger, events: seq<Event>, decisions: seq<bool>, i: nat)
    requires |decisions| == |events| && 0 < i < |events| && events[i].Submit?
    requires decisions[0] == Accepts(c, hits, events[0])
    ensures var next := if events[0].Sweep? then hits else Next(c, hits, events[0]);
            Deserves(c, next, events[1..], decisions[1..], i - 1) <==> Deserves(c, hits, events, decisions, i)
  {
    var e, first := events[i], events[0];
    var since := e.checkedAt - c.window;
    assert events[1..][..i - 1] == events[..i][1..] && decisions[1..][..i - 1] == decisions[..i][1..];
    if decisions[0] && first.owner == e.owner {
      SinceAppend(TimesOf(hits, e.owner), first.recordedAt, since);
    }
    hide Since, WithinQuota;
  }

  lemma {:induction false} UnsweptDecision(c: Config, hits: Ledger, events: seq<Event>, i: nat)
    requires i < |events| && events[i].Submit?
    ensures var d := DecisionsUnswept(c, hits, events);
            d[i] <==> Deserves(c, hits, events, d, i)
    decreases i
  {
    hide TimesOf, Since;
    var d := DecisionsUnswept(c, hits, events);
    if i > 0 {
      var next := if events[0].Sweep? then hits else Next(c, hits, events[0]);
      assert d[1..] == DecisionsUnswept(c, next, events[1..]);
      UnsweptDecision(c, next, events[1..], i - 1);
      DeservesLater(c, hits, events, d, i);
      hide Deserves;
    } else {
      assert events[..0] == [];
    }
  }

  /** Exactly who is refused: a submission that is otherwise fine is accepted if and only if the
      quota is unlimited or fewer than that many of the user's acceptances were recorded since
      one window before the check. */
  lemma AcceptedIff(c: Config, events: seq<Event>, i: nat, from: real)
    requires OneAtATime(c, events, from) && i < |events| && events[i].Submit?
    ensures var e, d := events[i], Decisions(c, map[], events);
            d[i] <==> e.otherwiseFine
                      && (c.quota <= 0 || AcceptedSince(events[..i], d[..i], e.owner, e.checkedAt - c.window) < c.quota)
  {
    SweepingIsInvisible(c, map[], map[], events, from);
    UnsweptDecision(c, map[], events, i);
  }
}
