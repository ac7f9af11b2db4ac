/** The filter every model-written coaching text passes through: nothing that copies the
    source or the passage, and nothing that coaches evasion, reaches the author. */
module CoachFilter {
  import opened Matches
  import opened Sentences
  import opened Tokenizer
  import opened VerbatimSpec

  datatype Field = WhatItIs | WhyFlagged | HonestFix | DoNot

  const FIELDS := [WhatItIs, WhyFlagged, HonestFix, DoNot]
  const MAX_FIELD_CHARS := 600
  const MIN_WORDS := 8

  datatype Card = Card(whatItIs: string, whyFlagged: string, honestFix: string, doNot: string) {
    function Get(f: Field): string {
      match f
      case WhatItIs => whatItIs
      case WhyFlagged => whyFlagged
      case HonestFix => honestFix
      case DoNot => doNot
    }

    function With(f: Field, text: string): Card {
      match f
      case WhatItIs => this.(whatItIs := text)
      case WhyFlagged => this.(whyFlagged := text)
      case HonestFix => this.(honestFix := text)
      case DoNot => this.(doNot := text)
    }
  }

  /** Text conventions, the evasion lexicon and each rule's own text. */
  datatype Env = Env(
    alphabet: Alphabet,
    isSpace: char -> bool,
    evades: string -> bool,
    ruleText: string -> Card)

  /** White space is never part of a word. */
  ghost predicate SpacesAreNotWords(env: Env) {
    forall c :: env.isSpace(c) ==> !env.alphabet.isWord(c)
  }

  function WordsIn(env: Env, text: string): Words {
    Norms(Tokenize(env.alphabet, text))
  }

  // ---------------------------------------------------------------- common runs

  function Gram(s: Words, k: nat, i: nat): Words
    requires i + k <= |s|
  {
    s[i..i + k]
  }

  /** The runs of `k` words of `b` that start before position `n`. */
  function Grams(b: Words, k: nat, n: nat): set<Words>
    requires n + k <= |b| + 1
  {
    if n == 0 then {} else Grams(b, k, n - 1) + {Gram(b, k, n - 1)}
  }

  /** Whether one of the runs of `a` from position `i` on is among `grams`. */
  predicate AnyGram(a: Words, k: nat, grams: set<Words>, i: nat)
    decreases |a| + 1 - i
  {
    i + k <= |a| && (Gram(a, k, i) in grams || AnyGram(a, k, grams, i + 1))
  }

  /** The gram-set test. */
  predicate VerbatimRun(a: Words, b: Words, k: nat) {
    |a| >= k && |b| >= k && AnyGram(a, k, Grams(b, k, |b| - k + 1), 0)
  }

  lemma {:induction false} GramsMeaning(b: Words, k: nat, n: nat, g: Words)
    requires n + k <= |b| + 1
    ensures g in Grams(b, k, n) <==> exists j: nat :: j < n && j + k <= |b| && Gram(b, k, j) == g
  {
    if n > 0 {
      GramsMeaning(b, k, n - 1, g);
    }
  }

  lemma {:induction false} AnyGramMeaning(a: Words, k: nat, grams: set<Words>, i: nat)
    ensures AnyGram(a, k, grams, i) <==> exists x: nat :: i <= x && x + k <= |a| && Gram(a, k, x) in grams
    decreases |a| + 1 - i
  {
    if i + k <= |a| {
      AnyGramMeaning(a, k, grams, i + 1);
    }
  }

  ghost predicate SharesRun(a: Words, b: Words, k: nat) {
    exists x: nat, y: nat :: x <= |a| && y <= |b| && CommonRun(a, x, b, y) >= k
  }

  lemma SharesRunMeaning(a: Words, b: Words, k: nat)
    ensures SharesRun(a, b, k) <==>
            exists x: nat, y: nat :: x + k <= |a| && y + k <= |b| && Gram(a, k, x) == Gram(b, k, y)
  {
    if SharesRun(a, b, k) {
      var x: nat, y: nat :| x <= |a| && y <= |b| && CommonRun(a, x, b, y) >= k;
      CommonRunIsMaximal(a, x, b, y);
      CommonRunAtLeast(a, x, b, y, k);
      assert Gram(a, k, x) == Gram(b, k, y);
    }
    if x: nat, y: nat :| x + k <= |a| && y + k <= |b| && Gram(a, k, x) == Gram(b, k, y) {
      CommonRunAtLeast(a, x, b, y, k);
    }
  }

  /** The gram-set test finds exactly what the matcher calls a common run. */
  lemma GramTestIsCommonRun(a: Words, b: Words, k: nat)
    ensures VerbatimRun(a, b, k) <==> SharesRun(a, b, k)
  {
    SharesRunMeaning(a, b, k);
    hide SharesRun;
    if |a| >= k && |b| >= k {
      var grams := Grams(b, k, |b| - k + 1);
      AnyGramMeaning(a, k, grams, 0);
      hide AnyGram, Grams;
      if VerbatimRun(a, b, k) {
        var x: nat :| x + k <= |a| && Gram(a, k, x) in grams;
        GramsMeaning(b, k, |b| - k + 1, Gram(a, k, x));
      }
      if x: nat, y: nat :| x + k <= |a| && y + k <= |b| && Gram(a, k, x) == Gram(b, k, y) {
        GramsMeaning(b, k, |b| - k + 1, Gram(a, k, x));
      }
    }
  }

  // ---------------------------------------------------------------- a text and the parts checked

  ghost predicate HasGram(s: Words, k: nat, g: Words) {
    exists z: nat :: z + k <= |s| && Gram(s, k, z) == g
  }

  /** Run `y` of `whole` is one of `p` or of `q`. */
  ghost predicate KeptRun(p: Words, q: Words, whole: Words, k: nat, y: nat)
    requires y + k <= |whole|
  {
    HasGram(p, k, Gram(whole, k, y)) || HasGram(q, k, Gram(whole, k, y))
  }

  /** Every run of `k` words of `whole` is one of `p` or of `q`. */
  ghost predicate KeepRuns(p: Words, q: Words, whole: Words, k: nat) {
    forall y: nat :: y + k <= |whole| ==> KeptRun(p, q, whole, k, y)
  }

  lemma KeptRunShared(p: Words, q: Words, whole: Words, k: nat, a: Words)
    requires KeepRuns(p, q, whole, k) && SharesRun(a, whole, k)
    ensures SharesRun(a, p, k) || SharesRun(a, q, k)
  {
    SharesRunMeaning(a, whole, k);
    SharesRunMeaning(a, p, k);
    SharesRunMeaning(a, q, k);
    var x: nat, y: nat :| x + k <= |a| && y + k <= |whole| && Gram(a, k, x) == Gram(whole, k, y);
    assert KeptRun(p, q, whole, k, y);
  }

  /** A run as a text of its own shares a run with `part` exactly when `part` has it. */
  lemma GramIsShared(part: Words, whole: Words, k: nat, y: nat)
    requires y + k <= |whole|
    ensures SharesRun(Gram(whole, k, y), whole, k)
    ensures SharesRun(Gram(whole, k, y), part, k) ==> HasGram(part, k, Gram(whole, k, y))
  {
    var g := Gram(whole, k, y);
    assert Gram(g, k, 0) == g;
    SharesRunMeaning(g, whole, k);
    SharesRunMeaning(g, part, k);
    if SharesRun(g, part, k) {
      var x: nat, z: nat :| x + k <= |g| && z + k <= |part| && Gram(g, k, x) == Gram(part, k, z);
      assert x == 0;
    }
  }

  ghost predicate Copies(env: Env, field: string, text: string, k: nat) {
    SharesRun(WordsIn(env, field), WordsIn(env, text), k)
  }

  /** Refusing whatever copies either of two parts refuses whatever copies `whole`, for every
      text checked, exactly when every run of `k` words of `whole` is a run of one of them. */
  lemma PartsDecide(env: Env, p: string, q: string, whole: string, k: nat)
    requires k >= 1
    ensures KeepRuns(WordsIn(env, p), WordsIn(env, q), WordsIn(env, whole), k)
       <==> forall field :: Copies(env, field, whole, k) ==> Copies(env, field, p, k) || Copies(env, field, q, k)
  {
    hide WordsIn, SharesRun, KeptRun;
    var ps, qs, ws := WordsIn(env, p), WordsIn(env, q), WordsIn(env, whole);
    if KeepRuns(ps, qs, ws, k) {
      forall field | Copies(env, field, whole, k) ensures Copies(env, field, p, k) || Copies(env, field, q, k) {
        KeptRunShared(ps, qs, ws, k, WordsIn(env, field));
      }
    }
    if forall field :: Copies(env, field, whole, k) ==> Copies(env, field, p, k) || Copies(env, field, q, k) {
      forall y: nat | y + k <= |ws| ensures KeptRun(ps, qs, ws, k, y) {
        LostRunIsCopied(env, p, q, whole, k, y);
      }
    }
  }

  /** The stretch of text that holds the words `[y, y + k)`. */
  function Stretch(env: Env, text: string, k: nat, y: nat): string
    requires k >= 1 && y + k <= |WordsIn(env, text)|
  {
    var ts := Tokenize(env.alphabet, text);
    Slice(text, ts[y].start, ts[y + k - 1].end)
  }

  /** The text of a run that neither part has copies the whole and neither part. */
  lemma LostRunIsCopied(env: Env, p: string, q: string, whole: string, k: nat, y: nat)
    requires k >= 1 && y + k <= |WordsIn(env, whole)|
    ensures Copies(env, Stretch(env, whole, k, y), whole, k)
    ensures !KeptRun(WordsIn(env, p), WordsIn(env, q), WordsIn(env, whole), k, y) ==>
              !Copies(env, Stretch(env, whole, k, y), p, k) && !Copies(env, Stretch(env, whole, k, y), q, k)
  {
    StretchWords(env, whole, k, y);
    hide WordsIn, SharesRun, Stretch;
    GramIsShared(WordsIn(env, p), WordsIn(env, whole), k, y);
    GramIsShared(WordsIn(env, q), WordsIn(env, whole), k, y);
  }

  lemma StretchBounds(env: Env, text: string, k: nat, y: nat)
    requires k >= 1 && y + k <= |WordsIn(env, text)|
    ensures var ts := Tokenize(env.alphabet, text);
            && ts[y].start < ts[y + k - 1].end <= |text|
            && Stretch(env, text, k, y) == text[ts[y].start..ts[y + k - 1].end]
  {
    StretchTokens(env.alphabet, text, y, k);
  }

  lemma StretchWords(env: Env, text: string, k: nat, y: nat)
    requires k >= 1 && y + k <= |WordsIn(env, text)|
    ensures WordsIn(env, Stretch(env, text, k, y)) == Gram(WordsIn(env, text), k, y)
  {
    StretchTokens(env.alphabet, text, y, k);
  }

  /** So there is nothing to strip from a stretch. */
  lemma StretchIsStripped(env: Env, text: string, k: nat, y: nat)
    requires SpacesAreNotWords(env) && k >= 1 && y + k <= |WordsIn(env, text)|
    ensures Stretch(env, text, k, y) != "" && StripText(env, Stretch(env, text, k, y)) == Stretch(env, text, k, y)
  {
    var s := Stretch(env, text, k, y);
    StretchBounds(env, text, k, y);
    TokenEdges(env.alphabet, text, 0, y);
    TokenEdges(env.alphabet, text, 0, y + k - 1);
    hide Stretch, Tokenize, WordsIn;
    assert !env.isSpace(s[0]) && !env.isSpace(s[|s| - 1]);
    assert RunEnd(s, 0, env.isSpace) == 0 && StripEnd(s, 0, |s|, env.isSpace) == |s|;
    assert s[0..|s|] == s;
  }

  // ---------------------------------------------------------------- stripping

  function StripText(env: Env, text: string): string {
    var start := RunEnd(text, 0, env.isSpace);
    text[start..StripEnd(text, start, |text|, env.isSpace)]
  }

  /** A character that is neither of a word nor an apostrophe separates words. */
  lemma WordsJoin(env: Env, p: string, c: char, q: string)
    requires !env.alphabet.isWord(c) && !IsApostrophe(c)
    ensures WordsIn(env, p + ([c] + q)) == WordsIn(env, p) + WordsIn(env, q)
  {
    TokensJoin(env.alphabet, p, c, q, 0);
  }

  /** Stripping white space does not change the words of a text, so what is checked on the
      stripped field holds of the field as it is shown. */
  lemma StripKeepsWords(env: Env, text: string)
    requires SpacesAreNotWords(env)
    ensures WordsIn(env, StripText(env, text)) == WordsIn(env, text)
  {
    var start := RunEnd(text, 0, env.isSpace);
    var end := StripEnd(text, start, |text|, env.isSpace);
    var core, tail := text[start..end], text[end..];
    WordsBetween(env.alphabet, text[..start], core, tail);
    assert text == text[..start] + (core + tail);
  }

  // ---------------------------------------------------------------- the filter

  predicate IsBad(env: Env, val: string, source: string, doc: string) {
    || val == ""
    || |val| > MAX_FIELD_CHARS
    || env.evades(val)
    || VerbatimRun(WordsIn(env, val), WordsIn(env, source), MIN_WORDS)
    || VerbatimRun(WordsIn(env, val), WordsIn(env, doc), MIN_WORDS)
  }

  function Position(f: Field): (i: nat)
    ensures i < |FIELDS| && FIELDS[i] == f
  {
    match f
    case WhatItIs => 0
    case WhyFlagged => 1
    case HonestFix => 2
    case DoNot => 3
  }

  lemma PositionOfField(n: nat)
    requires n < |FIELDS|
    ensures Position(FIELDS[n]) == n
  {
    assert FIELDS[0] == WhatItIs && FIELDS[1] == WhyFlagged && FIELDS[2] == HonestFix && FIELDS[3] == DoNot;
  }

  /** The card after its first `n` fields went through the filter. */
  function FilteredUpto(env: Env, card0: Card, source: string, doc: string, fallback: Card, n: nat): Card
    requires n <= |FIELDS|
  {
    if n == 0 then card0
    else
      var prev, f := FilteredUpto(env, card0, source, doc, fallback, n - 1), FIELDS[n - 1];
      if IsBad(env, StripText(env, prev.Get(f)), source, doc) then prev.With(f, fallback.Get(f)) else prev
  }

  function Filtered(env: Env, card0: Card, source: string, doc: string, fallback: Card): Card {
    FilteredUpto(env, card0, source, doc, fallback, |FIELDS|)
  }

  /** Replace every bad field by the rule's own text; answer which were replaced. */
  method PostFilter(env: Env, card0: Card, source: string, doc: string, fallback: Card)
    returns (card: Card, replaced: seq<Field>)
    ensures card == Filtered(env, card0, source, doc, fallback)
    ensures forall f :: f in replaced <==> IsBad(env, StripText(env, card0.Get(f)), source, doc)
    ensures forall i, j :: 0 <= i < j < |replaced| ==> Position(replaced[i]) < Position(replaced[j])
  {
    hide IsBad, StripText;
    card, replaced := card0, [];
    for n := 0 to |FIELDS|
      invariant card == FilteredUpto(env, card0, source, doc, fallback, n)
      invariant forall f :: f in replaced <==> Position(f) < n && IsBad(env, StripText(env, card0.Get(f)), source, doc)
      invariant forall i, j :: 0 <= i < j < |replaced| ==> Position(replaced[i]) < Position(replaced[j])
    {
      var key := FIELDS[n];
      PositionOfField(n);
      FilteredUptoField(env, card0, source, doc, fallback, n, key);
      if IsBad(env, StripText(env, card.Get(key)), source, doc) {
        card := card.With(key, fallback.Get(key));
        replaced := replaced + [key];
      }
    }
  }

  lemma {:induction false} FilteredUptoField(env: Env, card0: Card, source: string, doc: string, fallback: Card, n: nat, f: Field)
    requires n <= |FIELDS|
    ensures FilteredUpto(env, card0, source, doc, fallback, n).Get(f)
         == if Position(f) < n && IsBad(env, StripText(env, card0.Get(f)), source, doc) then fallback.Get(f) else card0.Get(f)
  {
    hide IsBad, StripText;
    if n > 0 {
      FilteredUptoField(env, card0, source, doc, fallback, n - 1, f);
      FilteredUptoField(env, card0, source, doc, fallback, n - 1, FIELDS[n - 1]);
      PositionOfField(n - 1);
    }
  }

  /** Field by field: the model's text where it passes, the rule's own text where it does not. */
  lemma FilteredField(env: Env, card0: Card, source: string, doc: string, fallback: Card, f: Field)
    ensures Filtered(env, card0, source, doc, fallback).Get(f)
         == if IsBad(env, StripText(env, card0.Get(f)), source, doc) then fallback.Get(f) else card0.Get(f)
  {
    FilteredUptoField(env, card0, source, doc, fallback, |FIELDS|, f);
  }

  // ---------------------------------------------------------------- what the author may see

  /** A field is the rule's own text, or short of any run of eight words with the source or
      the passage and free of evasion. */
  ghost predicate CleanField(env: Env, text: string, ruleText: string, source: string, doc: string) {
    || text == ruleText
    || (&& !SharesRun(WordsIn(env, text), WordsIn(env, source), MIN_WORDS)
        && !SharesRun(WordsIn(env, text), WordsIn(env, doc), MIN_WORDS)
        && !env.evades(StripText(env, text)))
  }

  ghost predicate CleanCard(env: Env, card: Card, rule: string, source: string, doc: string) {
    forall f :: CleanField(env, card.Get(f), env.ruleText(rule).Get(f), source, doc)
  }

  /** Whatever the model wrote, the filtered card is clean. */
  lemma FilteredIsClean(env: Env, card0: Card, rule: string, source: string, doc: string)
    requires SpacesAreNotWords(env)
    ensures CleanCard(env, Filtered(env, card0, source, doc, env.ruleText(rule)), rule, source, doc)
  {
    hide IsBad, SharesRun, Filtered;
    var card := Filtered(env, card0, source, doc, env.ruleText(rule));
    forall f ensures CleanField(env, card.Get(f), env.ruleText(rule).Get(f), source, doc) {
      FilteredField(env, card0, source, doc, env.ruleText(rule), f);
      GoodFieldIsClean(env, card0.Get(f), source, doc);
    }
  }

  lemma GoodFieldIsClean(env: Env, text: string, source: string, doc: string)
    requires SpacesAreNotWords(env)
    ensures !IsBad(env, StripText(env, text), source, doc) ==>
      && !SharesRun(WordsIn(env, text), WordsIn(env, source), MIN_WORDS)
      && !SharesRun(WordsIn(env, text), WordsIn(env, doc), MIN_WORDS)
      && !env.evades(StripText(env, text))
  {
    StripKeepsWords(env, text);
    hide StripText, WordsIn, SharesRun, VerbatimRun;
    GramTestIsCommonRun(WordsIn(env, text), WordsIn(env, source), MIN_WORDS);
    GramTestIsCommonRun(WordsIn(env, text), WordsIn(env, doc), MIN_WORDS);
  }

  /** A card that is clean for parts of two texts is clean for the texts when every run of
      eight words of either text is a run of one of the parts. */
  lemma CleanInWhole(env: Env, card: Card, rule: string, source: string, doc: string, sourcePart: string, docPart: string)
    requires KeepRuns(WordsIn(env, sourcePart), WordsIn(env, docPart), WordsIn(env, source), MIN_WORDS)
    requires KeepRuns(WordsIn(env, sourcePart), WordsIn(env, docPart), WordsIn(env, doc), MIN_WORDS)
    requires CleanCard(env, card, rule, sourcePart, docPart)
    ensures CleanCard(env, card, rule, source, doc)
  {
    hide WordsIn, SharesRun, KeepRuns;
    var p, q := WordsIn(env, sourcePart), WordsIn(env, docPart);
    forall f ensures CleanField(env, card.Get(f), env.ruleText(rule).Get(f), source, doc) {
      var words := WordsIn(env, card.Get(f));
      if SharesRun(words, WordsIn(env, source), MIN_WORDS) {
        KeptRunShared(p, q, WordsIn(env, source), MIN_WORDS, words);
      }
      if SharesRun(words, WordsIn(env, doc), MIN_WORDS) {
        KeptRunShared(p, q, WordsIn(env, doc), MIN_WORDS, words);
      }
    }
  }

  // ---------------------------------------------------------------- what the parts can hide

  /** What the filter asks of a field besides not copying the parts. */
  predicate Admissible(env: Env, field: string) {
    var val := StripText(env, field);
    val != "" && |val| <= MAX_FIELD_CHARS && !env.evades(val)
  }

  lemma PassesIff(env: Env, field: string, p: string, q: string)
    requires SpacesAreNotWords(env)
    ensures !IsBad(env, StripText(env, field), p, q)
       <==> Admissible(env, field) && !Copies(env, field, p, MIN_WORDS) && !Copies(env, field, q, MIN_WORDS)
  {
    StripKeepsWords(env, field);
    hide StripText, WordsIn, SharesRun, VerbatimRun;
    GramTestIsCommonRun(WordsIn(env, field), WordsIn(env, p), MIN_WORDS);
    GramTestIsCommonRun(WordsIn(env, field), WordsIn(env, q), MIN_WORDS);
  }

  /** The stripped text is the text without the white space at its ends. */
  lemma StripMeaning(env: Env, text: string) returns (p: nat, q: nat)
    ensures p <= q <= |text| && StripText(env, text) == text[p..q]
    ensures forall x :: 0 <= x < p || q <= x < |text| ==> env.isSpace(text[x])
    ensures p < q ==> !env.isSpace(text[p]) && !env.isSpace(text[q - 1])
  {
    p := RunEnd(text, 0, env.isSpace);
    q := StripEnd(text, p, |text|, env.isSpace);
  }

  lemma StrippedToNothing(env: Env, text: string)
    ensures StripText(env, text) == "" <==> forall x :: 0 <= x < |text| ==> env.isSpace(text[x])
  {
    var p, q := StripMeaning(env, text);
    hide StripText;
    assert p < q ==> !env.isSpace(text[p]) && text[p..q] != "";
  }

  /** Exactly which fields are replaced: blank ones, ones of more than 600 characters, ones that
      coach evasion and ones with eight words in a row from the source or the passage. */
  lemma BadIff(env: Env, field: string, source: string, doc: string)
    requires SpacesAreNotWords(env)
    ensures var val := StripText(env, field);
            IsBad(env, val, source, doc) <==>
              || (forall x :: 0 <= x < |field| ==> env.isSpace(field[x]))
              || |val| > 600 || env.evades(val)
              || Copies(env, field, source, 8) || Copies(env, field, doc, 8)
  {
    StrippedToNothing(env, field);
    PassesIff(env, field, source, doc);
    hide StripText, Copies;
  }

  /** A run that neither part has passes the filter as a field, exactly as it stands in the
      text, unless it is too long or reads as evasion. */
  lemma LostRunPasses(env: Env, p: string, q: string, whole: string, y: nat)
    requires SpacesAreNotWords(env) && y + MIN_WORDS <= |WordsIn(env, whole)|
    requires !KeptRun(WordsIn(env, p), WordsIn(env, q), WordsIn(env, whole), MIN_WORDS, y)
    ensures var s := Stretch(env, whole, MIN_WORDS, y);
            && Copies(env, s, whole, MIN_WORDS)
            && (IsBad(env, StripText(env, s), p, q) <==> |s| > MAX_FIELD_CHARS || env.evades(s))
  {
    var s := Stretch(env, whole, MIN_WORDS, y);
    LostRunIsCopied(env, p, q, whole, MIN_WORDS, y);
    StretchIsStripped(env, whole, MIN_WORDS, y);
    PassesIff(env, s, p, q);
    hide Stretch, StripText, WordsIn, Copies, IsBad, KeptRun;
  }

  /** When, of two texts, only parts are checked: the filtered card is clean for the texts,
      whatever the model wrote, if every run of eight words of either is a run of one of the
      parts, and only if the text of every other run is too long for a field, reads as evasion
      or is the rule's own text. */
  lemma PartsSuffice(env: Env, rule: string, source: string, doc: string, p: string, q: string)
    requires SpacesAreNotWords(env)
    ensures KeepRuns(WordsIn(env, p), WordsIn(env, q), WordsIn(env, source), MIN_WORDS)
         && KeepRuns(WordsIn(env, p), WordsIn(env, q), WordsIn(env, doc), MIN_WORDS)
        ==> AlwaysClean(env, rule, source, doc, p, q)
    ensures AlwaysClean(env, rule, source, doc, p, q) ==>
              OnlyRefusedLost(env, rule, p, q, source) && OnlyRefusedLost(env, rule, p, q, doc)
  {
    hide WordsIn, KeepRuns, CleanCard, Filtered;
    if KeepRuns(WordsIn(env, p), WordsIn(env, q), WordsIn(env, source), MIN_WORDS)
       && KeepRuns(WordsIn(env, p), WordsIn(env, q), WordsIn(env, doc), MIN_WORDS)
    {
      forall card0 ensures CleanCard(env, Filtered(env, card0, p, q, env.ruleText(rule)), rule, source, doc) {
        FilteredIsClean(env, card0, rule, p, q);
        CleanInWhole(env, Filtered(env, card0, p, q, env.ruleText(rule)), rule, source, doc, p, q);
      }
    }
    if AlwaysClean(env, rule, source, doc, p, q) {
      AlwaysCleanRefuses(env, rule, source, doc, p, q, source);
      AlwaysCleanRefuses(env, rule, source, doc, p, q, doc);
    }
  }

  /** Whatever the model wrote, what passes the filter on the parts is clean for the texts. */
  ghost predicate AlwaysClean(env: Env, rule: string, source: string, doc: string, p: string, q: string) {
    forall card0 :: CleanCard(env, Filtered(env, card0, p, q, env.ruleText(rule)), rule, source, doc)
  }

  /** The text of every run that neither part has is refused on other grounds, or is what the
      rule says itself. */
  ghost predicate OnlyRefusedLost(env: Env, rule: string, p: string, q: string, whole: string) {
    forall y: nat :: y + MIN_WORDS <= |WordsIn(env, whole)|
                     && !KeptRun(WordsIn(env, p), WordsIn(env, q), WordsIn(env, whole), MIN_WORDS, y) ==>
      var s := Stretch(env, whole, MIN_WORDS, y);
      |s| > MAX_FIELD_CHARS || env.evades(s) || forall f :: env.ruleText(rule).Get(f) == s
  }

  lemma AlwaysCleanRefuses(env: Env, rule: string, source: string, doc: string, p: string, q: string, whole: string)
    requires SpacesAreNotWords(env) && (whole == source || whole == doc)
    requires AlwaysClean(env, rule, source, doc, p, q)
    ensures OnlyRefusedLost(env, rule, p, q, whole)
  {
    hide WordsIn, KeptRun, Stretch, Filtered, IsBad, StripText;
    forall y: nat | y + MIN_WORDS <= |WordsIn(env, whole)|
                    && !KeptRun(WordsIn(env, p), WordsIn(env, q), WordsIn(env, whole), MIN_WORDS, y)
      ensures var s := Stretch(env, whole, MIN_WORDS, y);
              |s| > MAX_FIELD_CHARS || env.evades(s) || forall f :: env.ruleText(rule).Get(f) == s
    {
      var s := Stretch(env, whole, MIN_WORDS, y);
      LostRunPasses(env, p, q, whole, y);
      if |s| <= MAX_FIELD_CHARS && !env.evades(s) {
        var card0 := Card(s, s, s, s);
        assert CleanCard(env, Filtered(env, card0, p, q, env.ruleText(rule)), rule, source, doc);
        forall f ensures env.ruleText(rule).Get(f) == s {
          FilteredField(env, card0, p, q, env.ruleText(rule), f);
          assert card0.Get(f) == s;
          assert CleanField(env, s, env.ruleText(rule).Get(f), source, doc);
        }
      }
    }
  }

  lemma {:induction false} LongWordEnd(a: Alphabet, head: string, i: nat)
    requires i <= |head| && forall c :: c in head ==> a.isWord(c)
    ensures WordEnd(a, head, i) == |head|
    decreases |head| - i
  {
    if i < |head| {
      LongWordEnd(a, head, i + 1);
    }
  }

  /** A text of word characters only is one word. */
  lemma OneLongWord(env: Env, head: string)
    requires head != "" && forall c :: c in head ==> env.alphabet.isWord(c)
    ensures |WordsIn(env, head)| == 1
  {
    var a := env.alphabet;
    LongWordEnd(a, head, 1);
    assert head[0] in head;
    assert TokensFrom(a, head, |head|) == [];
  }

  const EIGHT_LETTERS := "a b c d e f g h"

  /** A word as long as the part checked hides eight copied words behind it. */
  lemma CopyBehindLongWordPasses(env: Env, head: string)
    requires SpacesAreNotWords(env) && env.isSpace(' ') && forall c :: 'a' <= c <= 'z' ==> env.alphabet.isWord(c)
    requires !env.evades(EIGHT_LETTERS)
    requires head != "" && forall c :: c in head ==> 'a' <= c <= 'z'
    ensures !IsBad(env, StripText(env, EIGHT_LETTERS), head, head)
    ensures Copies(env, EIGHT_LETTERS, head + ([' '] + EIGHT_LETTERS), MIN_WORDS)
    ensures |WordsIn(env, head + ([' '] + EIGHT_LETTERS))| == 9
  {
    EightLetters(env);
    OneLongWord(env, head);
    CopiesBehind(env, head, ' ', EIGHT_LETTERS);
    FewWords(env, EIGHT_LETTERS, head);
    hide WordsIn, StripText, IsBad, Copies;
    WordsJoin(env, head, ' ', EIGHT_LETTERS);
    PassesIff(env, EIGHT_LETTERS, head, head);
  }

  lemma FewWords(env: Env, field: string, text: string)
    requires |WordsIn(env, text)| < MIN_WORDS
    ensures !Copies(env, field, text, MIN_WORDS)
  {
    hide WordsIn;
    SharesRunMeaning(WordsIn(env, field), WordsIn(env, text), MIN_WORDS);
  }

  lemma CopiesBehind(env: Env, p: string, c: char, copied: string)
    requires !env.alphabet.isWord(c) && !IsApostrophe(c) && |WordsIn(env, copied)| >= MIN_WORDS
    ensures Copies(env, copied, p + ([c] + copied), MIN_WORDS)
  {
    WordsJoin(env, p, c, copied);
    hide WordsIn;
    var words, all := WordsIn(env, copied), WordsIn(env, p) + WordsIn(env, copied);
    SharesRunMeaning(words, all, MIN_WORDS);
    assert Gram(words, MIN_WORDS, 0) == Gram(all, MIN_WORDS, |WordsIn(env, p)|);
  }

  /** Eight one-letter words meet the conditions above. */
  lemma EightLetters(env: Env)
    requires SpacesAreNotWords(env)
    requires forall c :: 'a' <= c <= 'h' ==> env.alphabet.isWord(c)
    requires env.isSpace(' ')
    ensures |WordsIn(env, EIGHT_LETTERS)| == MIN_WORDS && StripText(env, EIGHT_LETTERS) == EIGHT_LETTERS
  {
    EightWords(env);
    assert env.alphabet.isWord(EIGHT_LETTERS[0]) && env.alphabet.isWord(EIGHT_LETTERS[14]);
    assert RunEnd(EIGHT_LETTERS, 0, env.isSpace) == 0 && StripEnd(EIGHT_LETTERS, 0, 15, env.isSpace) == 15;
  }

  lemma EightWords(env: Env)
    requires !env.alphabet.isWord(' ') && forall c :: 'a' <= c <= 'h' ==> env.alphabet.isWord(c)
    ensures |WordsIn(env, "a b c d")| == |WordsIn(env, "e f g h")| == 4
    ensures WordsIn(env, EIGHT_LETTERS) == WordsIn(env, "a b c d") + WordsIn(env, "e f g h")
  {
    FourWords(env, 'a', 'b', 'c', 'd');
    FourWords(env, 'e', 'f', 'g', 'h');
    assert ['a', ' ', 'b', ' ', 'c', ' ', 'd'] == "a b c d" && ['e', ' ', 'f', ' ', 'g', ' ', 'h'] == "e f g h";
    assert "a b c d" + ([' '] + "e f g h") == EIGHT_LETTERS;
    WordsJoin(env, "a b c d", ' ', "e f g h");
  }

  lemma FourWords(env: Env, c: char, d: char, e: char, f: char)
    requires env.alphabet.isWord(c) && env.alphabet.isWord(d) && env.alphabet.isWord(e) && env.alphabet.isWord(f)
    requires !env.alphabet.isWord(' ')
    ensures |WordsIn(env, [c, ' ', d, ' ', e, ' ', f])| == 4
  {
    hide WordsIn;
    OneLongWord(env, [c]);
    OneLongWord(env, [d]);
    OneLongWord(env, [e]);
    OneLongWord(env, [f]);
    WordsJoin(env, [e], ' ', [f]);
    WordsJoin(env, [d], ' ', [e] + ([' '] + [f]));
    WordsJoin(env, [c], ' ', [d] + ([' '] + ([e] + ([' '] + [f]))));
    assert [c, ' ', d, ' ', e, ' ', f] == [c] + ([' '] + ([d] + ([' '] + ([e] + ([' '] + [f])))));
  }
}
