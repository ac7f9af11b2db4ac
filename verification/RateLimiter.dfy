/** The fixed-window limiter: how many submissions one client may make. */
module RateLimiter {
  import opened Clock
  import opened Matches

  datatype Window = Window(start: real, count: nat)

  type Buckets = map<string, Window>

  /** `limit <= 0` turns the limiter off; `window` is in seconds. */
  datatype Config = Config(limit: int, window: real)

  const SWEEP_AT := 1024

  /** `max(1, int(x))` */
  function AtLeastOneSecond(x: real): int {
    if x.Floor > 1 then x.Floor else 1
  }

  // ---------------------------------------------------------------- one check

  predicate Stale(c: Config, w: Window, now: real) {
    now - w.start >= c.window
  }

  /** The answer: nothing when allowed, else the seconds to wait. */
  function Answer(c: Config, b: Buckets, key: string, now: real): Option<int> {
    if key !in b || Stale(c, b[key], now) || b[key].count < c.limit then None
    else Some(AtLeastOneSecond(b[key].start + c.window - now))
  }

  function Recorded(c: Config, b: Buckets, key: string, now: real): Buckets {
    if key !in b || Stale(c, b[key], now) then b[key := Window(now, 1)]
    else if b[key].count < c.limit then b[key := Window(b[key].start, b[key].count + 1)]
    else b
  }

  function Swept(c: Config, b: Buckets, now: real): Buckets {
    if |b| < SWEEP_AT then b else map k | k in b && !Stale(c, b[k], now) :: b[k]
  }

  class RateLimiter {
    const c: Config
    var buckets: Buckets

    constructor (limit: int, window: real)
      ensures c == Config(limit, window) && buckets == map[]
    {
      c := Config(limit, window);
      buckets := map[];
    }

    method Check(key: string, now: real) returns (retry: Option<int>)
      modifies this
      ensures c.limit <= 0 ==> retry == None && buckets == old(buckets)
      ensures c.limit > 0 ==>
        var swept := Swept(c, old(buckets), now);
        retry == Answer(c, swept, key, now) && buckets == Recorded(c, swept, key, now)
      ensures retry.Some? ==> forall k :: k in buckets ==> k in old(buckets) && buckets[k] == old(buckets)[k]
      ensures c.limit > 0 && retry.None? ==> key in buckets && 1 <= buckets[key].count <= c.limit
      ensures forall k :: k in old(buckets) && k != key && now - old(buckets)[k].start < c.window ==>
        k in buckets && buckets[k] == old(buckets)[k]
    {
      if c.limit <= 0 {
        return None;
      }
      Sweep(now);
      if key !in buckets || now - buckets[key].start >= c.window {
        buckets := buckets[key := Window(now, 1)];
        return None;
      }
      var w := buckets[key];
      if w.count >= c.limit {
        return Some(AtLeastOneSecond(w.start + c.window - now));
      }
      buckets := buckets[key := w.(count := w.count + 1)];
      return None;
    }

    method Sweep(now: real)
      modifies this
      ensures buckets == Swept(c, old(buckets), now)
      ensures forall k :: k in buckets <==>
        k in old(buckets) && (|old(buckets)| < 1024 || now - old(buckets)[k].start < c.window)
      ensures forall k :: k in buckets ==> buckets[k] == old(buckets)[k]
    {
      if |buckets| < SWEEP_AT {
        return;
      }
      var stale := set k | k in buckets && now - buckets[k].start >= c.window;
      buckets := buckets - stale;
    }
  }

  // ---------------------------------------------------------------- runs

  datatype Hit = Hit(key: string, now: real)

  function Times(hits: seq<Hit>): (times: seq<real>)
    ensures |times| == |hits|
    ensures forall i :: 0 <= i < |hits| ==> times[i] == hits[i].now
  {
    seq(|hits|, i requires 0 <= i < |hits| => hits[i].now)
  }

  ghost predicate ClockMovesOn(hits: seq<Hit>, from: real) {
    MovesOn(Times(hits), from)
  }

  lemma RestMovesOn(hits: seq<Hit>, from: real)
    requires hits != [] && ClockMovesOn(hits, from)
    ensures from <= hits[0].now && ClockMovesOn(hits[1..], hits[0].now)
  {
    MovesOnRest(Times(hits), from);
    assert Times(hits[1..]) == Times(hits)[1..];
  }

  function Answers(c: Config, b: Buckets, hits: seq<Hit>): (r: seq<Option<int>>)
    ensures |r| == |hits|
    decreases |hits|
  {
    if hits == [] then []
    else
      var swept := Swept(c, b, hits[0].now);
      [Answer(c, swept, hits[0].key, hits[0].now)] + Answers(c, Recorded(c, swept, hits[0].key, hits[0].now), hits[1..])
  }

  /** The same limiter without any sweeping. */
  function AnswersUnswept(c: Config, b: Buckets, hits: seq<Hit>): (r: seq<Option<int>>)
    ensures |r| == |hits|
    decreases |hits|
  {
    if hits == [] then []
    else
      [Answer(c, b, hits[0].key, hits[0].now)] + AnswersUnswept(c, Recorded(c, b, hits[0].key, hits[0].now), hits[1..])
  }

  /** `b` lacks only windows of `full` that are over. */
  ghost predicate LacksOnlyStale(c: Config, b: Buckets, full: Buckets, now: real) {
    && (forall k :: k in b ==> k in full && b[k] == full[k])
    && (forall k :: k in full && k !in b ==> Stale(c, full[k], now))
  }

  lemma StepUnderSweep(c: Config, b: Buckets, full: Buckets, h: Hit)
    requires c.window > 0.0
    requires LacksOnlyStale(c, b, full, h.now)
    ensures Answer(c, Swept(c, b, h.now), h.key, h.now) == Answer(c, full, h.key, h.now)
    ensures LacksOnlyStale(c, Recorded(c, Swept(c, b, h.now), h.key, h.now), Recorded(c, full, h.key, h.now), h.now)
  {
    var swept := Swept(c, b, h.now);
    assert LacksOnlyStale(c, swept, full, h.now);
  }

  /** Sweeping never changes an answer while the clock does not run backwards. */
  lemma {:induction false} SweepingIsInvisible(c: Config, b: Buckets, full: Buckets, hits: seq<Hit>, from: real)
    requires c.window > 0.0
    requires ClockMovesOn(hits, from) && LacksOnlyStale(c, b, full, from)
    ensures Answers(c, b, hits) == AnswersUnswept(c, full, hits)
    decreases |hits|
  {
    if hits != [] {
      var h := hits[0];
      RestMovesOn(hits, from);
      StepUnderSweep(c, b, full, h);
      SweepingIsInvisible(c, Recorded(c, Swept(c, b, h.now), h.key, h.now), Recorded(c, full, h.key, h.now), hits[1..], h.now);
    }
  }

  // ---------------------------------------------------------------- how many are allowed

  /** The allowed hits of `key` in the half-open interval of one window length from `t`. */
  function AllowedIn(c: Config, answers: seq<Option<int>>, hits: seq<Hit>, key: string, t: real): nat
    requires |answers| == |hits|
    decreases |hits|
  {
    if hits == [] then 0
    else
      (if hits[0].key == key && t <= hits[0].now < t + c.window && answers[0].None? then 1 else 0)
      + AllowedIn(c, answers[1..], hits[1..], key, t)
  }

  ghost predicate WellCounted(c: Config, b: Buckets, now: real) {
    forall k :: k in b ==> 1 <= b[k].count <= c.limit && b[k].start <= now
  }

  /** How many more hits of `key` inside the interval the state can still allow. */
  ghost function Room(c: Config, b: Buckets, key: string, t: real, now: real): int {
    if now < t then 2 * c.limit - 1
    else if now >= t + c.window then 0
    else if key !in b then c.limit
    else if b[key].start >= t then c.limit - b[key].count
    else 2 * c.limit - b[key].count
  }

  lemma StepUsesRoom(c: Config, b: Buckets, h: Hit, key: string, t: real, from: real)
    requires c.limit >= 1 && c.window > 0.0
    requires WellCounted(c, b, from) && from <= h.now
    ensures var next := Recorded(c, b, h.key, h.now);
            && WellCounted(c, next, h.now)
            && Room(c, next, key, t, h.now)
               + (if h.key == key && t <= h.now < t + c.window && Answer(c, b, h.key, h.now).None? then 1 else 0)
               <= Room(c, b, key, t, from)
  {}

  lemma {:induction false} AllowedFitsRoom(c: Config, b: Buckets, hits: seq<Hit>, key: string, t: real, from: real)
    requires c.limit >= 1 && c.window > 0.0
    requires WellCounted(c, b, from) && ClockMovesOn(hits, from)
    ensures AllowedIn(c, AnswersUnswept(c, b, hits), hits, key, t) <= Room(c, b, key, t, from)
    decreases |hits|
  {
    if hits != [] {
      var h := hits[0];
      RestMovesOn(hits, from);
      StepUsesRoom(c, b, h, key, t, from);
      assert AnswersUnswept(c, b, hits)[1..] == AnswersUnswept(c, Recorded(c, b, h.key, h.now), hits[1..]);
      AllowedFitsRoom(c, Recorded(c, b, h.key, h.now), hits[1..], key, t, h.now);
    } else {
      assert Room(c, b, key, t, from) >= 0;
    }
  }

  /** Over any run, an interval of one window length holds at most `2 * limit - 1` allowed hits
      of one client: one fewer than two full windows, because a window opens with a hit. */
  lemma IntervalBound(c: Config, hits: seq<Hit>, key: string, t: real, from: real)
    requires c.limit >= 1 && c.window > 0.0 && ClockMovesOn(hits, from)
    ensures AllowedIn(c, Answers(c, map[], hits), hits, key, t) <= 2 * c.limit - 1
  {
    SweepingIsInvisible(c, map[], map[], hits, from);
    AllowedFitsRoom(c, map[], hits, key, t, from);
  }

  /** A limiter window, counted from the hit that opens it, holds at most `limit`. */
  lemma WindowBound(c: Config, b: Buckets, hits: seq<Hit>, from: real)
    requires c.limit >= 1 && c.window > 0.0
    requires hits != [] && WellCounted(c, b, from) && ClockMovesOn(hits, from)
    requires hits[0].key !in b || Stale(c, b[hits[0].key], hits[0].now)
    ensures AllowedIn(c, Answers(c, b, hits), hits, hits[0].key, hits[0].now) <= c.limit
  {
    var h := hits[0];
    RestMovesOn(hits, from);
    SweepingIsInvisible(c, b, b, hits, from);
    StepUsesRoom(c, b, h, h.key, h.now, from);
    AllowedFitsRoom(c, Recorded(c, b, h.key, h.now), hits[1..], h.key, h.now, h.now);
    assert AnswersUnswept(c, b, hits)[1..] == AnswersUnswept(c, Recorded(c, b, h.key, h.now), hits[1..]);
  }

  /** `n` hits of `key` at once, then the rest of the run. */
  function Burst(key: string, now: real, n: nat, rest: seq<Hit>): (hits: seq<Hit>)
    ensures |hits| == n + |rest|
  {
    seq(n, i => Hit(key, now)) + rest
  }

  /** A burst that still fits the open window is allowed as a whole. */
  lemma {:induction false} BurstIsAllowed(c: Config, b: Buckets, key: string, now: real, n: nat, rest: seq<Hit>, t: real)
    requires key in b && !Stale(c, b[key], now) && b[key].count + n <= c.limit
    requires t <= now < t + c.window
    ensures var full := b[key := Window(b[key].start, b[key].count + n)];
            var hits := Burst(key, now, n, rest);
            AllowedIn(c, AnswersUnswept(c, b, hits), hits, key, t)
            == n + AllowedIn(c, AnswersUnswept(c, full, rest), rest, key, t)
  {
    if n == 0 {
      assert Burst(key, now, 0, rest) == rest && b[key := b[key]] == b;
    } else {
      var next := Recorded(c, b, key, now);
      var hits := Burst(key, now, n, rest);
      assert hits[1..] == Burst(key, now, n - 1, rest);
      assert AnswersUnswept(c, b, hits)[1..] == AnswersUnswept(c, next, hits[1..]);
      BurstIsAllowed(c, next, key, now, n - 1, rest, t);
      assert next[key := Window(next[key].start, next[key].count + (n - 1))] == b[key := Window(b[key].start, b[key].count + n)];
    }
  }

  /** The run that reaches the bound: a hit opens a window, the window fills up half way, and a
      full one follows at once. */
  function TwoWindows(c: Config, key: string): seq<Hit>
    requires c.limit >= 1
  {
    [Hit(key, 0.0)] + Burst(key, c.window / 2.0, c.limit - 1, [Hit(key, c.window)] + Burst(key, c.window, c.limit - 1, []))
  }

  lemma TwoWindowsClock(c: Config, key: string)
    requires c.limit >= 1 && c.window > 0.0
    ensures ClockMovesOn(TwoWindows(c, key), 0.0)
  {
    var hits := TwoWindows(c, key);
    assert forall i :: 0 <= i < |hits| ==> hits[i].now == if i == 0 then 0.0 else if i < c.limit then c.window / 2.0 else c.window;
  }

  /** A hit that opens a window and the burst after it are allowed as a whole. */
  lemma OpeningBurst(c: Config, b: Buckets, key: string, start: real, now: real, n: nat, rest: seq<Hit>, t: real)
    requires 1 + n <= c.limit && (key !in b || Stale(c, b[key], start))
    requires start <= now < start + c.window && t <= now < t + c.window
    ensures var full := b[key := Window(start, 1 + n)];
            var hits := [Hit(key, start)] + Burst(key, now, n, rest);
            AllowedIn(c, AnswersUnswept(c, b, hits), hits, key, t)
            == (if t <= start then 1 else 0) + n + AllowedIn(c, AnswersUnswept(c, full, rest), rest, key, t)
  {
    var hits, next := [Hit(key, start)] + Burst(key, now, n, rest), b[key := Window(start, 1)];
    assert hits[1..] == Burst(key, now, n, rest);
    assert AnswersUnswept(c, b, hits)[1..] == AnswersUnswept(c, next, hits[1..]);
    BurstIsAllowed(c, next, key, now, n, rest, t);
    assert next[key := Window(start, 1 + n)] == b[key := Window(start, 1 + n)];
  }

  /** The interval bound is reached for every limit and window length. */
  lemma IntervalBoundIsReached(c: Config, key: string)
    requires c.limit >= 1 && c.window > 0.0
    ensures var hits := TwoWindows(c, key);
            && ClockMovesOn(hits, 0.0)
            && AllowedIn(c, Answers(c, map[], hits), hits, key, c.window / 2.0) == 2 * c.limit - 1
  {
    hide ClockMovesOn, Burst, Recorded, Answer;
    var t, n := c.window / 2.0, c.limit - 1;
    var second := [Hit(key, c.window)] + Burst(key, c.window, n, []);
    assert second[1..] == Burst(key, c.window, n, []);
    TwoWindowsClock(c, key);
    assert TwoWindows(c, key)[1..] == Burst(key, t, n, second);
    SweepingIsInvisible(c, map[], map[], TwoWindows(c, key), 0.0);
    OpeningBurst(c, map[], key, 0.0, t, n, second, t);
    OpeningBurst(c, map[key := Window(0.0, 1 + n)], key, c.window, c.window, n, [], t);
  }

  // ---------------------------------------------------------------- refused hits leave no trace

  /** A refused hit changes nothing. */
  lemma RefusedIsNotRecorded(c: Config, b: Buckets, key: string, now: real)
    requires Answer(c, b, key, now).Some?
    ensures Recorded(c, b, key, now) == b
  {}

  /** The hits that were allowed, in order. */
  function Allowed(hits: seq<Hit>, answers: seq<Option<int>>): seq<Hit>
    requires |answers| == |hits|
  {
    if hits == [] then []
    else (if answers[0].None? then [hits[0]] else []) + Allowed(hits[1..], answers[1..])
  }

  ghost predicate AllAllowed(answers: seq<Option<int>>) {
    forall i :: 0 <= i < |answers| ==> answers[i].None?
  }

  lemma {:induction false} AllowedAlone(c: Config, b: Buckets, hits: seq<Hit>)
    ensures AllAllowed(AnswersUnswept(c, b, Allowed(hits, AnswersUnswept(c, b, hits))))
    decreases |hits|
  {
    if hits != [] {
      var h := hits[0];
      var next := Recorded(c, b, h.key, h.now);
      var rest := Allowed(hits[1..], AnswersUnswept(c, next, hits[1..]));
      assert AnswersUnswept(c, b, hits)[1..] == AnswersUnswept(c, next, hits[1..]);
      AllowedAlone(c, next, hits[1..]);
      if Answer(c, b, h.key, h.now).None? {
        var kept := [h] + rest;
        assert kept[1..] == rest;
        assert Allowed(hits, AnswersUnswept(c, b, hits)) == kept;
        assert AnswersUnswept(c, b, kept) == [None] + AnswersUnswept(c, next, rest);
        assert AllAllowed([None] + AnswersUnswept(c, next, rest));
      } else {
        RefusedIsNotRecorded(c, b, h.key, h.now);
        assert Allowed(hits, AnswersUnswept(c, b, hits)) == rest;
      }
    }
  }

  lemma {:induction false} AllowedMovesOn(hits: seq<Hit>, answers: seq<Option<int>>, from: real)
    requires |answers| == |hits| && ClockMovesOn(hits, from)
    ensures ClockMovesOn(Allowed(hits, answers), from)
    decreases |hits|
  {
    if hits != [] {
      RestMovesOn(hits, from);
      AllowedMovesOn(hits[1..], answers[1..], hits[0].now);
      var rest := Allowed(hits[1..], answers[1..]);
      if answers[0].None? {
        assert Times([hits[0]] + rest) == [hits[0].now] + Times(rest);
      }
    }
  }

  /** Over any run: without the refused hits every other hit is still allowed. A client that
      keeps trying is no worse off for it, nor is anyone else. */
  lemma RefusedLeaveNoTrace(c: Config, hits: seq<Hit>, from: real)
    requires c.window > 0.0 && ClockMovesOn(hits, from)
    ensures AllAllowed(Answers(c, map[], Allowed(hits, Answers(c, map[], hits))))
  {
    SweepingIsInvisible(c, map[], map[], hits, from);
    var kept := Allowed(hits, Answers(c, map[], hits));
    AllowedMovesOn(hits, Answers(c, map[], hits), from);
    SweepingIsInvisible(c, map[], map[], kept, from);
    AllowedAlone(c, map[], hits);
  }

  // ---------------------------------------------------------------- the advertised wait

  /** A refused client that waits the advertised whole seconds, and no other hit in between,
      is let in exactly when the time left was whole or under a second: fractions are cut off.
      One second more is always enough. */
  lemma RetryAfter(c: Config, b: Buckets, key: string, now: real)
    requires Answer(c, b, key, now).Some?
    ensures var r, left := Answer(c, b, key, now).value, b[key].start + c.window - now;
            && r >= 1
            && (Answer(c, b, key, now + r as real).None? <==> left <= 1.0 || left == left.Floor as real)
            && Answer(c, b, key, now + (r + 1) as real).None?
  {}

  lemma {:induction false} WindowKept(c: Config, b: Buckets, between: seq<Hit>, key: string, last: Hit)
    requires key in b
    requires var answers := AnswersUnswept(c, b, between);
             forall i :: 0 <= i < |between| && between[i].key == key ==> answers[i].Some?
    requires last.key == key
    ensures AnswersUnswept(c, b, between + [last])[|between|] == Answer(c, b, key, last.now)
    decreases |between|
  {
    if between == [] {
      assert between + [last] == [last];
    } else {
      var h := between[0];
      var next, rest := Recorded(c, b, h.key, h.now), between[1..];
      var answers := AnswersUnswept(c, b, between);
      assert answers[1..] == AnswersUnswept(c, next, rest);
      assert forall i :: 0 <= i < |rest| ==> rest[i] == between[i + 1] && AnswersUnswept(c, next, rest)[i] == answers[i + 1];
      assert next[key] == b[key] by {
        if h.key == key {
          assert answers[0].Some?;
        }
      }
      WindowKept(c, next, rest, key, last);
      assert (between + [last])[1..] == rest + [last];
    }
  }

  /** The advertised wait over a run: a client refused at `now` that comes back after it finds
      the same answer whatever lies between, other clients' hits and its own refused ones. */
  lemma RetryAfterRun(c: Config, b: Buckets, key: string, now: real, between: seq<Hit>, wait: int)
    requires Answer(c, b, key, now).Some?
    requires var answers := AnswersUnswept(c, b, [Hit(key, now)] + between);
             forall i :: 0 <= i < |between| && between[i].key == key ==> answers[i + 1].Some?
    ensures var r, left := Answer(c, b, key, now).value, b[key].start + c.window - now;
            var back := AnswersUnswept(c, b, [Hit(key, now)] + between + [Hit(key, now + wait as real)])[|between| + 1];
            && (wait == r ==> (back.None? <==> left <= 1.0 || left == left.Floor as real))
            && (wait == r + 1 ==> back.None?)
  {
    var first, last := Hit(key, now), Hit(key, now + wait as real);
    RefusedIsNotRecorded(c, b, key, now);
    assert ([first] + between)[1..] == between;
    assert AnswersUnswept(c, b, [first] + between)[1..] == AnswersUnswept(c, b, between);
    forall i | 0 <= i < |between| && between[i].key == key ensures AnswersUnswept(c, b, between)[i].Some? {
      assert AnswersUnswept(c, b, [first] + between)[i + 1] == AnswersUnswept(c, b, between)[i];
    }
    WindowKept(c, b, between, key, last);
    assert ([first] + between + [last])[1..] == between + [last];
    RetryAfter(c, b, key, now);
  }
}
