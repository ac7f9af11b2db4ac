/** Coaching the highest-priority flags of a check through a shared cache and a daily budget. */
module Coach {
  import opened CoachBudget
  import opened CoachFilter
  import opened Matches
  import opened OrderedDict
  import opened Sorting
  import opened TtlCache

  const MAX_EXCERPT_CHARS := 700

  /** The triage types worth a model call. */
  const COACHABLE: set<string> := {
    "verbatim_uncited", "paraphrase_uncited", "verbatim_cited_unquoted",
    "quoted_uncited", "paraphrase_cited", "needs_review"}

  /** What one cached card depends on. */
  datatype Key = Key(model: string, rule: string, doc: string, source: string)

  datatype Stored = Stored(card: Card, filtered: seq<Field>)

  datatype Coaching = Coaching(card: Card, filtered: seq<Field>, cached: bool)

  datatype Triage = Triage(rule: string, priority: int)

  datatype Flag = Flag(
    triage: Option<Triage>,
    similarity: real,
    docExcerpt: string,
    sourceExcerpt: string,
    coach: Option<Coaching>)

  /** A call raises, answers something that is not a card, or answers a card. */
  datatype Reply = Raised | Unreadable | Answered(card: Card)

  function DocPart(m: Flag): string {
    Slice(m.docExcerpt, 0, MAX_EXCERPT_CHARS)
  }

  function SourcePart(m: Flag): string {
    Slice(m.sourceExcerpt, 0, MAX_EXCERPT_CHARS)
  }

  // ---------------------------------------------------------------- the key's framing

  const SEPARATOR := '\U{1F}'

  /** The cache key: each part followed by the separator. The digest taken of it stands for it. */
  function Frame(k: Key): string {
    k.model + [SEPARATOR] + (k.rule + [SEPARATOR] + (k.doc + [SEPARATOR] + (k.source + [SEPARATOR])))
  }

  predicate Unseparated(k: Key) {
    SEPARATOR !in k.model && SEPARATOR !in k.rule && SEPARATOR !in k.doc && SEPARATOR !in k.source
  }

  lemma FirstSeparator(a: string, x: string)
    requires SEPARATOR !in a
    ensures var s := a + [SEPARATOR] + x;
            && s[|a|] == SEPARATOR && (forall i :: 0 <= i < |a| ==> s[i] != SEPARATOR)
            && s[..|a|] == a && s[|a| + 1..] == x
  {
    assert forall i :: 0 <= i < |a| ==> (a + [SEPARATOR] + x)[i] == a[i] && a[i] in a;
  }

  lemma SameHead(a: string, x: string, b: string, y: string)
    requires a + [SEPARATOR] + x == b + [SEPARATOR] + y
    requires SEPARATOR !in a && SEPARATOR !in b
    ensures a == b && x == y
  {
    FirstSeparator(a, x);
    FirstSeparator(b, y);
    assert |a| == |b|;
  }

  lemma Separators(k: Key)
    ensures multiset(Frame(k))[SEPARATOR] == 4 + multiset(k.model)[SEPARATOR] + multiset(k.rule)[SEPARATOR]
                                               + multiset(k.doc)[SEPARATOR] + multiset(k.source)[SEPARATOR]
    ensures Unseparated(k) <==> multiset(Frame(k))[SEPARATOR] == 4
  {
    assert forall s: string :: SEPARATOR in s <==> SEPARATOR in multiset(s);
  }

  lemma UnseparatedIsUnique(k: Key, other: Key)
    requires Unseparated(k) && Frame(other) == Frame(k)
    ensures other == k
  {
    Separators(k);
    Separators(other);
    SameHead(k.model, k.rule + [SEPARATOR] + (k.doc + [SEPARATOR] + (k.source + [SEPARATOR])),
             other.model, other.rule + [SEPARATOR] + (other.doc + [SEPARATOR] + (other.source + [SEPARATOR])));
    SameHead(k.rule, k.doc + [SEPARATOR] + (k.source + [SEPARATOR]), other.rule, other.doc + [SEPARATOR] + (other.source + [SEPARATOR]));
    SameHead(k.doc, k.source + [SEPARATOR], other.doc, other.source + [SEPARATOR]);
    SameHead(k.source, [], other.source, []);
  }

  lemma SplitAt(s: string) returns (a: string, b: string)
    requires SEPARATOR in s
    ensures s == a + [SEPARATOR] + b
  {
    var i :| 0 <= i < |s| && s[i] == SEPARATOR;
    a, b := s[..i], s[i + 1..];
  }

  /** A key with a separator in one of its parts has a twin whose parts are split elsewhere. */
  lemma SeparatedHasTwin(k: Key) returns (other: Key)
    requires !Unseparated(k)
    ensures Frame(other) == Frame(k) && other != k
  {
    var sep := [SEPARATOR];
    if SEPARATOR in k.source {
      var a, b := SplitAt(k.source);
      other := k.(doc := k.doc + sep + a, source := b);
    } else if SEPARATOR in k.doc {
      var a, b := SplitAt(k.doc);
      other := k.(doc := a, source := b + sep + k.source);
    } else if SEPARATOR in k.rule {
      var a, b := SplitAt(k.rule);
      other := k.(rule := a, doc := b, source := k.doc + sep + k.source);
    } else {
      var a, b := SplitAt(k.model);
      other := Key(a, b, k.rule + sep + k.doc, k.source);
    }
  }

  /** The framing tells a key from every other exactly when none of its parts holds the
      separator. */
  lemma FrameIsUniqueIff(k: Key)
    ensures Unseparated(k) <==> forall other :: Frame(other) == Frame(k) ==> other == k
  {
    hide Frame;
    if Unseparated(k) {
      forall other | Frame(other) == Frame(k) ensures other == k {
        UnseparatedIsUnique(k, other);
      }
    } else {
      var other := SeparatedHasTwin(k);
    }
  }

  // ---------------------------------------------------------------- selection

  /** Lowest priority number first, then highest similarity. */
  function MoreUrgent(ms: seq<Flag>): (nat, nat) -> bool {
    (i: nat, j: nat) =>
      PriorityAt(ms, i) < PriorityAt(ms, j)
      || (PriorityAt(ms, i) == PriorityAt(ms, j) && SimilarityAt(ms, i) >= SimilarityAt(ms, j))
  }

  function PriorityAt(ms: seq<Flag>, i: nat): int {
    if i < |ms| && ms[i].triage.Some? then ms[i].triage.value.priority else 9
  }

  function SimilarityAt(ms: seq<Flag>, i: nat): real {
    if i < |ms| then ms[i].similarity else 0.0
  }

  function CoachableIndices(coachable: set<string>, ms: seq<Flag>, n: nat): (r: seq<nat>)
    requires n <= |ms|
    ensures Distinct(r)
    ensures forall i :: i in r <==> 0 <= i < n && IsCoachable(coachable, ms[i])
  {
    if n == 0 then []
    else CoachableIndices(coachable, ms, n - 1) + (if IsCoachable(coachable, ms[n - 1]) then [n - 1] else [])
  }

  predicate IsCoachable(coachable: set<string>, m: Flag) {
    m.triage.Some? && m.triage.value.rule in coachable
  }

  function Select(coachable: set<string>, ms: seq<Flag>, limit: nat): (r: seq<nat>)
    ensures |r| <= limit
    ensures forall i :: i in r ==> i < |ms| && IsCoachable(coachable, ms[i])
  {
    TopK(CoachableIndices(coachable, ms, |ms|), MoreUrgent(ms), limit)
  }

  ghost predicate Coachable(coachable: set<string>, ms: seq<Flag>, i: nat) {
    i < |ms| && ms[i].triage.Some? && ms[i].triage.value.rule in coachable
  }

  /** Flag `i` is coached before flag `j`: a lower priority number; among equals the more similar
      one; among those the one listed earlier. */
  ghost predicate Precedes(ms: seq<Flag>, i: nat, j: nat)
    requires i < |ms| && ms[i].triage.Some? && j < |ms| && ms[j].triage.Some?
  {
    var p, q := ms[i].triage.value.priority, ms[j].triage.value.priority;
    || p < q
    || (p == q && ms[i].similarity > ms[j].similarity)
    || (p == q && ms[i].similarity == ms[j].similarity && i < j)
  }

  /** The selected flags are the most urgent coachable ones, each once and in that order. */
  lemma SelectedAreMostUrgent(coachable: set<string>, ms: seq<Flag>, limit: nat)
    ensures var chosen := Select(coachable, ms, limit);
            && Distinct(chosen)
            && (forall i :: i in chosen ==> Coachable(coachable, ms, i))
            && (forall x, y :: 0 <= x < y < |chosen| ==>
                  Coachable(coachable, ms, chosen[x]) && Coachable(coachable, ms, chosen[y]) && Precedes(ms, chosen[x], chosen[y]))
            && (forall j: nat :: Coachable(coachable, ms, j) && j !in chosen ==>
                  |chosen| == limit && forall i :: i in chosen ==> Precedes(ms, i, j))
  {
    var all, chosen := CoachableIndices(coachable, ms, |ms|), Select(coachable, ms, limit);
    assert TotalPreorder(MoreUrgent(ms));
    TopKMeaning(all, MoreUrgent(ms), limit);
    hide Outranks, Precedes;
    forall x, y | 0 <= x < y < |chosen|
      ensures Coachable(coachable, ms, chosen[x]) && Coachable(coachable, ms, chosen[y]) && Precedes(ms, chosen[x], chosen[y])
    {
      assert chosen[x] in chosen && chosen[y] in chosen;
      OutranksByFields(coachable, ms, chosen[x], chosen[y]);
    }
    forall j: nat, i | Coachable(coachable, ms, j) && j !in chosen && i in chosen ensures Precedes(ms, i, j) {
      assert j in all;
      OutranksByFields(coachable, ms, i, j);
    }
  }

  lemma OutranksByFields(coachable: set<string>, ms: seq<Flag>, i: nat, j: nat)
    requires Coachable(coachable, ms, i) && Coachable(coachable, ms, j)
    requires Outranks(CoachableIndices(coachable, ms, |ms|), MoreUrgent(ms), i, j)
    ensures Precedes(ms, i, j)
  {
    CoachablesAscend(coachable, ms, |ms|);
    if Before(CoachableIndices(coachable, ms, |ms|), i, j) {
      BeforeIsLess(CoachableIndices(coachable, ms, |ms|), i, j);
    }
  }

  lemma {:induction false} CoachablesAscend(coachable: set<string>, ms: seq<Flag>, n: nat)
    requires n <= |ms|
    ensures Increasing(CoachableIndices(coachable, ms, n))
  {
    if n > 0 {
      CoachablesAscend(coachable, ms, n - 1);
      IncreasingAppend(CoachableIndices(coachable, ms, n - 1), n - 1);
    }
  }

  // ---------------------------------------------------------------- what is kept clean

  function KeyOf(model: string, m: Flag): Key
    requires m.triage.Some?
  {
    Key(model, m.triage.value.rule, DocPart(m), SourcePart(m))
  }

  ghost function Cut(text: string): string {
    if |text| > 700 then text[..700] else text
  }

  /** Two flags share a cached card exactly when model, rule and the first 700 characters of both
      excerpts are the same, unless a part of the key holds the separator. */
  lemma SharesCardIff(model: string, m: Flag, other: string, n: Flag)
    requires m.triage.Some? && n.triage.Some? && Unseparated(KeyOf(model, m))
    ensures Frame(KeyOf(model, m)) == Frame(KeyOf(other, n))
       <==> && model == other && m.triage.value.rule == n.triage.value.rule
            && Cut(m.docExcerpt) == Cut(n.docExcerpt) && Cut(m.sourceExcerpt) == Cut(n.sourceExcerpt)
  {
    assert DocPart(m) == Cut(m.docExcerpt) && SourcePart(m) == Cut(m.sourceExcerpt);
    assert DocPart(n) == Cut(n.docExcerpt) && SourcePart(n) == Cut(n.sourceExcerpt);
    hide Frame, Unseparated, Cut, DocPart, SourcePart;
    if Frame(KeyOf(model, m)) == Frame(KeyOf(other, n)) {
      UnseparatedIsUnique(KeyOf(model, m), KeyOf(other, n));
    }
  }

  /** An entry is clean for the key it was stored under, and so for whatever key has its frame
      and no separator in a part. */
  ghost predicate CleanEntry(env: Env, frame: string, s: Stored) {
    forall key :: Frame(key) == frame && Unseparated(key) ==> CleanCard(env, s.card, key.rule, key.source, key.doc)
  }

  lemma OwnEntryIsClean(env: Env, key: Key, s: Stored)
    requires CleanCard(env, s.card, key.rule, key.source, key.doc)
    ensures CleanEntry(env, Frame(key), s)
  {
    hide Frame, Unseparated, CleanCard;
    forall other | Frame(other) == Frame(key) && Unseparated(other)
      ensures CleanCard(env, s.card, other.rule, other.source, other.doc)
    {
      UnseparatedIsUnique(other, key);
    }
  }

  ghost predicate CleanCache(env: Env, d: ODict<string, Entry<Stored>>) {
    forall frame :: frame in d.items ==> CleanEntry(env, frame, d.items[frame].value)
  }

  /** Every run of eight words of either excerpt is a run of one of the cut excerpts. */
  ghost predicate CutsKeepRuns(env: Env, m: Flag) {
    var source, doc := WordsIn(env, SourcePart(m)), WordsIn(env, DocPart(m));
    && KeepRuns(source, doc, WordsIn(env, m.sourceExcerpt), MIN_WORDS)
    && KeepRuns(source, doc, WordsIn(env, m.docExcerpt), MIN_WORDS)
  }

  /** Checking the cuts is as good as checking the excerpts, whatever the model writes, exactly
      when the cuts together lose no run of eight words: the filter refuses what copies either. */
  lemma CutsDecide(env: Env, m: Flag)
    ensures CutsKeepRuns(env, m)
       <==> forall field ::
              Copies(env, field, m.sourceExcerpt, MIN_WORDS) || Copies(env, field, m.docExcerpt, MIN_WORDS) ==>
              Copies(env, field, SourcePart(m), MIN_WORDS) || Copies(env, field, DocPart(m), MIN_WORDS)
  {
    hide WordsIn, Copies, KeepRuns;
    PartsDecide(env, SourcePart(m), DocPart(m), m.sourceExcerpt, MIN_WORDS);
    PartsDecide(env, SourcePart(m), DocPart(m), m.docExcerpt, MIN_WORDS);
  }

  /** Excerpts within the limit are not cut. */
  lemma ShortExcerptsKeepRuns(env: Env, m: Flag)
    requires |m.sourceExcerpt| <= MAX_EXCERPT_CHARS && |m.docExcerpt| <= MAX_EXCERPT_CHARS
    ensures SourcePart(m) == m.sourceExcerpt && DocPart(m) == m.docExcerpt && CutsKeepRuns(env, m)
  {
    hide WordsIn;
    assert forall a, b, k, y: nat :: y + k <= |a| ==> KeptRun(a, b, a, k, y) && KeptRun(b, a, a, k, y);
  }

  /** For cards: filtering against the cuts always yields a card that is clean for the excerpts
      if the cuts together lose no run of eight words, and only if every lost run is refused on
      other grounds, for its length or as evasion, or is the rule's own text. */
  lemma FilterSuffices(env: Env, m: Flag, rule: string)
    requires SpacesAreNotWords(env)
    ensures CutsKeepRuns(env, m) ==> AlwaysClean(env, rule, m.sourceExcerpt, m.docExcerpt, SourcePart(m), DocPart(m))
    ensures AlwaysClean(env, rule, m.sourceExcerpt, m.docExcerpt, SourcePart(m), DocPart(m)) ==>
              && OnlyRefusedLost(env, rule, SourcePart(m), DocPart(m), m.sourceExcerpt)
              && OnlyRefusedLost(env, rule, SourcePart(m), DocPart(m), m.docExcerpt)
  {
    hide WordsIn, KeepRuns, AlwaysClean, OnlyRefusedLost;
    PartsSuffice(env, rule, m.sourceExcerpt, m.docExcerpt, SourcePart(m), DocPart(m));
  }

  /** The card is clean for the flag's own rule and cut excerpts, and for the full excerpts where
      the cuts together lose no run. */
  ghost predicate CleanFor(env: Env, m: Flag, card: Card)
    requires m.triage.Some?
  {
    && CleanCard(env, card, m.triage.value.rule, SourcePart(m), DocPart(m))
    && (CutsKeepRuns(env, m) ==> CleanCard(env, card, m.triage.value.rule, m.sourceExcerpt, m.docExcerpt))
  }

  /** So is whatever coaching a flag carries, unless it came from the cache and the flag's key
      holds the separator. */
  ghost predicate CleanFlag(env: Env, model: string, m: Flag) {
    m.coach.Some? ==>
      m.triage.Some? && ((m.coach.value.cached && !Unseparated(KeyOf(model, m))) || CleanFor(env, m, m.coach.value.card))
  }

  const HALF_WITH_SEPARATOR := [SEPARATOR] + "a b c d"
  const EIGHT_WITH_SEPARATOR := "a b c d" + ([SEPARATOR] + "e f g h")

  /** Eight words, whatever stands between the fourth and the fifth. */
  lemma TwinTexts(env: Env)
    requires SpacesAreNotWords(env) && env.isSpace(' ') && forall c :: 'a' <= c <= 'h' ==> env.alphabet.isWord(c)
    requires !env.alphabet.isWord(SEPARATOR)
    ensures !Copies(env, EIGHT_LETTERS, HALF_WITH_SEPARATOR, MIN_WORDS)
    ensures !Copies(env, EIGHT_LETTERS, "e f g h", MIN_WORDS)
    ensures Copies(env, EIGHT_LETTERS, EIGHT_WITH_SEPARATOR, MIN_WORDS)
  {
    EightWords(env);
    WordsJoin(env, "a b c d", SEPARATOR, "e f g h");
    WordsJoin(env, [], SEPARATOR, "a b c d");
    assert [] + ([SEPARATOR] + "a b c d") == HALF_WITH_SEPARATOR && WordsIn(env, []) == [];
    hide WordsIn, SharesRun;
    FewWords(env, EIGHT_LETTERS, HALF_WITH_SEPARATOR);
    FewWords(env, EIGHT_LETTERS, "e f g h");
    SameWordsCopy(env, EIGHT_LETTERS, EIGHT_WITH_SEPARATOR);
  }

  lemma SameWordsCopy(env: Env, field: string, text: string)
    requires WordsIn(env, field) == WordsIn(env, text) && |WordsIn(env, field)| >= MIN_WORDS
    ensures Copies(env, field, text, MIN_WORDS)
  {
    hide WordsIn;
    var words := WordsIn(env, field);
    SharesRunMeaning(words, words, MIN_WORDS);
    assert Gram(words, MIN_WORDS, 0) == Gram(words, MIN_WORDS, 0);
  }

  /** What a separator in an excerpt can do: the second key's source excerpt is eight words with
      the separator in the middle, the first key is its twin. The filter lets the eight words
      through for the first, and the cache serves them to the second. */
  lemma TwinServesCopy(env: Env, model: string, rule: string, card: Card, fallback: Card)
    requires SpacesAreNotWords(env) && env.isSpace(' ') && forall c :: 'a' <= c <= 'h' ==> env.alphabet.isWord(c)
    requires !env.alphabet.isWord(SEPARATOR) && !env.evades(EIGHT_LETTERS)
    requires card.whatItIs == EIGHT_LETTERS
    ensures Frame(Key(model, rule, HALF_WITH_SEPARATOR, "e f g h")) == Frame(Key(model, rule, [], EIGHT_WITH_SEPARATOR))
    ensures Filtered(env, card, "e f g h", HALF_WITH_SEPARATOR, fallback).whatItIs == EIGHT_LETTERS
    ensures Copies(env, EIGHT_LETTERS, EIGHT_WITH_SEPARATOR, MIN_WORDS)
  {
    assert HALF_WITH_SEPARATOR + [SEPARATOR] + ("e f g h" + [SEPARATOR]) == [] + [SEPARATOR] + (EIGHT_WITH_SEPARATOR + [SEPARATOR]);
    TwinTexts(env);
    EightLetters(env);
    hide WordsIn, StripText, IsBad, Filtered, Copies;
    PassesIff(env, EIGHT_LETTERS, "e f g h", HALF_WITH_SEPARATOR);
    FilteredField(env, card, "e f g h", HALF_WITH_SEPARATOR, fallback, WhatItIs);
  }

  /** The cuts can let copied text through: a verbatim match of nine words, the first of them 700
      letters long, the other eight of which the model repeats. */
  lemma CutCanLeak(env: Env, m: Flag, head: string, card: Card, fallback: Card)
    requires SpacesAreNotWords(env) && env.isSpace(' ') && forall c :: 'a' <= c <= 'z' ==> env.alphabet.isWord(c)
    requires !env.evades(EIGHT_LETTERS)
    requires |head| == MAX_EXCERPT_CHARS && forall c :: c in head ==> 'a' <= c <= 'z'
    requires m.sourceExcerpt == m.docExcerpt == head + ([' '] + EIGHT_LETTERS)
    requires card.whatItIs == EIGHT_LETTERS
    ensures |WordsIn(env, m.docExcerpt)| == 9
    ensures Filtered(env, card, SourcePart(m), DocPart(m), fallback).whatItIs == EIGHT_LETTERS
    ensures Copies(env, EIGHT_LETTERS, m.sourceExcerpt, MIN_WORDS) && Copies(env, EIGHT_LETTERS, m.docExcerpt, MIN_WORDS)
  {
    assert SourcePart(m) == DocPart(m) == head;
    hide WordsIn, StripText, Copies, Filtered, IsBad;
    CopyBehindLongWordPasses(env, head);
    FilteredField(env, card, SourcePart(m), DocPart(m), fallback, WhatItIs);
  }

  /** `n` is `m`, possibly with coaching attached. */
  ghost predicate OnlyCoached(m: Flag, n: Flag) {
    n == m || (n.coach.Some? && n == m.(coach := n.coach))
  }

  lemma Untouched(ms: seq<Flag>)
    ensures forall i :: 0 <= i < |ms| ==> OnlyCoached(ms[i], ms[i])
  {}

  lemma CleanOnCuts(env: Env, m: Flag, card: Card)
    requires m.triage.Some? && CleanCard(env, card, m.triage.value.rule, SourcePart(m), DocPart(m))
    ensures CleanFor(env, m, card)
  {
    if CutsKeepRuns(env, m) {
      CleanInWhole(env, card, m.triage.value.rule, m.sourceExcerpt, m.docExcerpt, SourcePart(m), DocPart(m));
    }
  }

  lemma SamePlace(env: Env, model: string, m: Flag, n: Flag, card: Card)
    requires m.triage.Some? && n == m.(coach := n.coach)
    ensures n.triage.Some? && KeyOf(model, n) == KeyOf(model, m) && (CleanFor(env, n, card) <==> CleanFor(env, m, card))
  {
    hide CleanCard;
  }

  /** `s` is `start` with clean coaching attached to chosen flags only. */
  ghost predicate CoachedSoFar(env: Env, model: string, start: seq<Flag>, s: seq<Flag>, chosen: seq<nat>) {
    && |s| == |start|
    && forall i :: 0 <= i < |s| ==> OnlyCoached(start[i], s[i]) && CleanFlag(env, model, s[i]) && (s[i] != start[i] ==> i in chosen)
  }

  /** The first `n` of the chosen flags carry coaching. */
  ghost predicate AllCoached(s: seq<Flag>, chosen: seq<nat>, n: nat)
    requires n <= |chosen|
  {
    forall k :: 0 <= k < n ==> chosen[k] < |s| && s[chosen[k]].coach.Some?
  }

  lemma NothingCoached(env: Env, model: string, start: seq<Flag>, chosen: seq<nat>)
    requires forall i :: 0 <= i < |start| ==> CleanFlag(env, model, start[i])
    ensures CoachedSoFar(env, model, start, start, chosen) && AllCoached(start, chosen, 0)
  {}

  lemma FlagSoFar(env: Env, model: string, start: seq<Flag>, s: seq<Flag>, chosen: seq<nat>, i: nat)
    requires CoachedSoFar(env, model, start, s, chosen) && i < |start|
    ensures |s| == |start| && OnlyCoached(start[i], s[i]) && CleanFlag(env, model, s[i])
  {}

  lemma OneMoreCoached(env: Env, model: string, start: seq<Flag>, s: seq<Flag>, chosen: seq<nat>, n: nat, m: Flag)
    requires CoachedSoFar(env, model, start, s, chosen) && n < |chosen| && chosen[n] < |s|
    requires CleanFlag(env, model, m) && m.coach.Some? && m == s[chosen[n]].(coach := m.coach)
    ensures CoachedSoFar(env, model, start, s[chosen[n] := m], chosen)
    ensures AllCoached(s, chosen, n) ==> AllCoached(s[chosen[n] := m], chosen, n + 1)
  {
    hide CleanFlag;
  }

  lemma SelectedHasTriage(coachable: set<string>, before: seq<Flag>, m: Flag, limit: nat, i: nat)
    requires i in Select(coachable, before, limit) && OnlyCoached(before[i], m)
    ensures m.triage.Some?
  {}

  datatype Stats = Stats(coached: nat, calls: nat, cached: nat, errors: nat, capReached: bool)

  // ---------------------------------------------------------------- other checks

  /** What another check may do to the shared cache and budget between two lock sections. */
  datatype Other = Look(frame: string, now: real) | Keep(frame: string, stored: Stored, now: real) | Ask(now: real)

  /** Other checks store only what is clean for its key. */
  ghost predicate Trusted(env: Env, ops: seq<Other>) {
    forall n :: 0 <= n < |ops| && ops[n].Keep? ==> CleanEntry(env, ops[n].frame, ops[n].stored)
  }

  function CallsOn(times: seq<real>, day: int): nat {
    if times == [] then 0
    else CallsOn(times[..|times| - 1], day) + (if DayOf(times[|times| - 1]) == day then 1 else 0)
  }

  /** The calls made at `called` are among those the budget granted. */
  ghost predicate CallsAreGranted(cap: nat, called: seq<real>, asked: seq<real>) {
    forall day :: CallsOn(called, day) <= GrantedOn(cap, Tally(0, 0), asked, day)
  }

  lemma AskedOnce(cap: nat, called: seq<real>, asked: seq<real>, now: real)
    requires CallsAreGranted(cap, called, asked)
    ensures CallsAreGranted(cap, called, asked + [now])
    ensures Grants(cap, TallyAfter(cap, Tally(0, 0), asked), now) ==> CallsAreGranted(cap, called + [now], asked + [now])
  {
    OneMore(cap, Tally(0, 0), asked, now);
    assert (called + [now])[..|called|] == called;
  }

  class Coach {
    const env: Env
    const model: string
    const coachable: set<string> := COACHABLE
    const maxPerCheck: nat
    const cache: TTLCache<string, Stored>
    const budget: CoachBudget
    /** What the n-th call of the model gives. */
    const replies: (nat, Key) -> Reply
    var made: nat
    /** When those calls were granted. */
    ghost var called: seq<real>

    constructor (env: Env, model: string, maxPerCheck: nat, cache: TTLCache<string, Stored>,
                 budget: CoachBudget, replies: (nat, Key) -> Reply)
      requires SpacesAreNotWords(env)
      requires cache.Valid() && CleanCache(env, cache.data) && budget.Valid()
      ensures Valid()
      ensures this.cache == cache && this.budget == budget && this.maxPerCheck == maxPerCheck && this.env == env
    {
      this.env, this.model, this.maxPerCheck := env, model, maxPerCheck;
      this.cache, this.budget, this.replies := cache, budget, replies;
      made, called := 0, [];
    }

    /** Everything the shared cache holds is clean for the key it is stored under, and every
        call made was granted. */
    ghost predicate Valid()
      reads this, cache, budget
    {
      && SpacesAreNotWords(env) && cache.Valid() && CleanCache(env, cache.data) && budget.Valid()
      && made == |called| && CallsAreGranted(budget.maxCallsPerDay, called, budget.asked)
    }

    /** One check. `clock(n)` is the time when the n-th selected flag is looked at; `before(n)`
        and `during(n)` are what other checks do before that and during the model call. */
    method CoachMatches(matches: array<Flag>, configured: bool, clock: nat -> real,
                        before: nat -> seq<Other>, during: nat -> seq<Other>) returns (stats: Stats)
      requires Valid()
      requires forall n :: Trusted(env, before(n)) && Trusted(env, during(n))
      requires forall i :: 0 <= i < matches.Length ==> CleanFlag(env, model, matches[i])
      modifies matches, this, cache, budget
      ensures Valid()
      ensures forall i :: 0 <= i < matches.Length ==>
        OnlyCoached(old(matches[i]), matches[i]) && CleanFlag(env, model, matches[i])
      ensures forall i :: 0 <= i < matches.Length && matches[i] != old(matches[i]) ==>
        configured && i in Select(coachable, old(matches[..]), maxPerCheck)
      ensures stats.coached + stats.errors <= maxPerCheck
      ensures configured && !stats.capReached ==>
        var chosen := Select(coachable, old(matches[..]), maxPerCheck);
        && stats.coached + stats.errors == |chosen|
        && (stats.errors == 0 ==> forall i :: i in chosen ==> i < matches.Length && matches[i].coach.Some?)
      ensures stats.calls <= made - old(made) == stats.coached - stats.cached + stats.errors
      ensures old(called) <= called && old(budget.asked) <= budget.asked
      ensures budget.maxCallsPerDay > 0 && Contiguous(budget.asked) ==>
        forall day :: CallsOn(called, day) <= budget.maxCallsPerDay
    {
      hide CleanFlag, OnlyCoached, Select, Trusted, Contiguous, Valid;
      stats := Stats(0, 0, 0, 0, false);
      Untouched(matches[..]);
      if configured {
        stats := CoachSelected(matches, clock, before, during);
      }
      CapHolds();
    }

    /** The calls made in a day stay within the cap while no day's requests are interrupted. */
    lemma CapHolds()
      requires Valid()
      ensures budget.maxCallsPerDay > 0 && Contiguous(budget.asked) ==>
        forall day :: CallsOn(called, day) <= budget.maxCallsPerDay
    {
      var cap := budget.maxCallsPerDay;
      CapHoldsIffContiguous(budget.asked);
      if cap > 0 && Contiguous(budget.asked) {
        forall day ensures CallsOn(called, day) <= cap {
          assert GrantedOn(cap, Tally(0, 0), budget.asked, day) <= cap;
        }
      }
    }

    method CoachSelected(matches: array<Flag>, clock: nat -> real,
                         before: nat -> seq<Other>, during: nat -> seq<Other>) returns (stats: Stats)
      requires Valid()
      requires forall n :: Trusted(env, before(n)) && Trusted(env, during(n))
      requires forall i :: 0 <= i < matches.Length ==> CleanFlag(env, model, matches[i])
      modifies matches, this, cache, budget
      ensures Valid()
      ensures var chosen := Select(coachable, old(matches[..]), maxPerCheck);
        && CoachedSoFar(env, model, old(matches[..]), matches[..], chosen)
        && (if stats.capReached then stats.coached + stats.errors < |chosen|
            else stats.coached + stats.errors == |chosen| && (stats.errors == 0 ==> AllCoached(matches[..], chosen, |chosen|)))
      ensures stats.calls <= made - old(made) == stats.coached - stats.cached + stats.errors
      ensures old(called) <= called && old(budget.asked) <= budget.asked
    {
      hide CleanCard, CleanCache, CleanFlag, OnlyCoached, CoachedSoFar, AllCoached, Select, Trusted, Valid;
      stats := Stats(0, 0, 0, 0, false);
      ghost var start := matches[..];
      var chosen := Select(coachable, matches[..], maxPerCheck);
      NothingCoached(env, model, start, chosen);
      var n := 0;
      while n < |chosen|
        invariant 0 <= n <= |chosen|
        invariant Valid()
        invariant CoachedSoFar(env, model, start, matches[..], chosen)
        invariant stats.coached + stats.errors == n && !stats.capReached
        invariant stats.errors == 0 ==> AllCoached(matches[..], chosen, n)
        invariant stats.calls <= made - old(made) == stats.coached - stats.cached + stats.errors
        invariant old(called) <= called && old(budget.asked) <= budget.asked
      {
        var i := chosen[n];
        assert i in chosen;
        FlagSoFar(env, model, start, matches[..], chosen, i);
        SelectedHasTriage(coachable, start, matches[i], maxPerCheck, i);
        Interfere(before(n));
        ghost var looked := matches[..];
        var outcome := CoachFlag(matches, i, clock(n), during(n));
        match outcome {
          case NoBudget =>
            stats := stats.(capReached := true);
            return;
          case Failed(answered) =>
            stats := stats.(errors := stats.errors + 1, calls := stats.calls + (if answered then 1 else 0));
          case Found(stored, cached) =>
            OneMoreCoached(env, model, start, looked, chosen, n, matches[i]);
            stats := stats.(coached := stats.coached + 1,
                            cached := stats.cached + (if cached then 1 else 0),
                            calls := stats.calls + (if cached then 0 else 1));
        }
        n := n + 1;
      }
    }

    /** Attach the card for flag `i`, when there is one. */
    method CoachFlag(matches: array<Flag>, i: nat, now: real, during: seq<Other>) returns (outcome: Outcome)
      requires Valid() && Trusted(env, during)
      requires i < matches.Length && matches[i].triage.Some? && CleanFlag(env, model, matches[i])
      modifies matches, this, cache, budget
      ensures Valid()
      ensures matches[..] == old(matches[..])[i := matches[i]]
      ensures CleanFlag(env, model, matches[i])
      ensures if outcome.Found? then matches[i].coach.Some? && matches[i] == old(matches[i]).(coach := matches[i].coach)
              else matches[..] == old(matches[..])
      ensures made == old(made) + (if outcome.Failed? || (outcome.Found? && !outcome.cached) then 1 else 0)
      ensures old(called) <= called && old(budget.asked) <= budget.asked
    {
      hide CleanFor, Frame, Unseparated, Trusted, Valid, IsFiltered;
      outcome := CardFor(matches[i], now, during);
      if outcome.Found? {
        var coaching := Coaching(outcome.stored.card, outcome.stored.filtered, outcome.cached);
        var m := matches[i].(coach := Some(coaching));
        SamePlace(env, model, matches[i], m, coaching.card);
        matches[i] := m;
      }
    }

    /** Other checks at work. */
    method Interfere(ops: seq<Other>)
      requires Valid() && Trusted(env, ops)
      modifies cache, budget
      ensures Valid() && old(budget.asked) <= budget.asked
    {
      hide CleanEntry, ODict.Valid, CallsAreGranted;
      for n := 0 to |ops|
        invariant Valid() && old(budget.asked) <= budget.asked
      {
        match ops[n]
        case Look(frame, now) =>
          GetKeepsClean(env, cache.data, frame);
          var _ := cache.Get(frame, now);
        case Keep(frame, stored, now) =>
          PutKeepsClean(env, cache.data, frame, Entry(now, stored), cache.maxSize);
          cache.Put(frame, stored, now);
        case Ask(now) =>
          AskedOnce(budget.maxCallsPerDay, called, budget.asked, now);
          var _ := budget.Take(now);
      }
    }

    /** The card for one flag: from the cache, or from the model through the filter. */
    method CardFor(m: Flag, now: real, during: seq<Other>) returns (outcome: Outcome)
      requires Valid() && m.triage.Some? && Trusted(env, during)
      modifies this, cache, budget
      ensures Valid()
      ensures var key, entry := KeyOf(model, m), old(cache.data.items);
              var frame := Frame(key);
              if frame in entry && now - entry[frame].at <= cache.ttl then
                && outcome == Found(entry[frame].value, true)
                && budget.tally == old(budget.tally) && budget.asked == old(budget.asked)
              else
                && old(budget.asked) + [now] <= budget.asked
                && if !Grants(budget.maxCallsPerDay, old(budget.tally), now) then outcome == NoBudget
                   else match replies(old(made), key)
                     case Raised => outcome == Failed(false)
                     case Unreadable => outcome == Failed(true)
                     case Answered(card) => outcome.Found? && !outcome.cached && IsFiltered(env, m, card, outcome.stored)
      ensures outcome.Found? ==>
        (outcome.cached && !Unseparated(KeyOf(model, m))) || CleanFor(env, m, outcome.stored.card)
      ensures called == old(called) + (if outcome.Failed? || (outcome.Found? && !outcome.cached) then [now] else [])
      ensures made == old(made) + |called| - |old(called)|
    {
      hide CleanCard, Filtered, IsBad, StripText, ODict.Valid, CallsAreGranted, Trusted, Frame, Unseparated, CleanFor, CleanEntry;
      var rule := m.triage.value.rule;
      var key := KeyOf(model, m);
      var frame := Frame(key);
      GetKeepsClean(env, cache.data, frame);
      var hit := cache.Get(frame, now);
      if hit.Some? {
        HitIsClean(env, model, m, hit.value);
        return Found(hit.value, true);
      }
      AskedOnce(budget.maxCallsPerDay, called, budget.asked, now);
      var granted := budget.Take(now);
      if !granted {
        return NoBudget;
      }
      var reply := replies(made, key);
      made, called := made + 1, called + [now];
      Interfere(during);
      if !reply.Answered? {
        return Failed(reply.Unreadable?);
      }
      var card, replaced := PostFilter(env, reply.card, SourcePart(m), DocPart(m), env.ruleText(rule));
      FilteredIsClean(env, reply.card, rule, SourcePart(m), DocPart(m));
      CleanOnCuts(env, m, card);
      var stored := Stored(card, replaced);
      OwnEntryIsClean(env, key, stored);
      PutKeepsClean(env, cache.data, frame, Entry(now, stored), cache.maxSize);
      cache.Put(frame, stored, now);
      return Found(stored, false);
    }
  }

  lemma HitIsClean(env: Env, model: string, m: Flag, s: Stored)
    requires m.triage.Some? && CleanEntry(env, Frame(KeyOf(model, m)), s)
    ensures Unseparated(KeyOf(model, m)) ==> CleanFor(env, m, s.card)
  {
    hide CleanCard, Frame, Unseparated;
    if Unseparated(KeyOf(model, m)) {
      CleanOnCuts(env, m, s.card);
    }
  }

  /** `s` is the model's card after the filter, with the names of the fields replaced. */
  ghost predicate IsFiltered(env: Env, m: Flag, card: Card, s: Stored)
    requires m.triage.Some?
  {
    && s.card == Filtered(env, card, SourcePart(m), DocPart(m), env.ruleText(m.triage.value.rule))
    && forall f :: f in s.filtered <==> IsBad(env, StripText(env, card.Get(f)), SourcePart(m), DocPart(m))
  }

  datatype Outcome = NoBudget | Failed(answered: bool) | Found(stored: Stored, cached: bool)

  lemma GetKeepsClean(env: Env, d: ODict<string, Entry<Stored>>, frame: string)
    requires CleanCache(env, d)
    ensures CleanCache(env, d.MoveToEnd(frame)) && CleanCache(env, d.Delete(frame))
  {}

  lemma PutKeepsClean(env: Env, d: ODict<string, Entry<Stored>>, frame: string, e: Entry<Stored>, n: nat)
    requires d.Valid() && CleanCache(env, d) && CleanEntry(env, frame, e.value)
    ensures CleanCache(env, d.Put(frame, e).Trim(n))
  {
    d.PutValid(frame, e);
    d.Put(frame, e).TrimValid(n);
  }
}
