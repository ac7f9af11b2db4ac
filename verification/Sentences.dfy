/** Sentence splitting that keeps decimals and abbreviations whole and loses no text. Which
    characters are spaces, digits and cased letters, and which tokens are abbreviations, are
    parameters; the terminator patterns are scanners. */
module Sentences {
  import opened Matches
  import opened Tokenizer

  datatype Charset = Charset(
    isSpace: char -> bool,
    isDigit: char -> bool,
    isLower: char -> bool,
    isUpper: char -> bool,
    isAbbreviation: string -> bool)

  predicate IsTerminator(c: char) {
    c == '.' || c == '!' || c == '?' || c == '\U{2026}'
  }

  predicate IsCloser(c: char) {
    c == '"' || c == '\'' || c == '\U{2019}' || c == '\U{201D}' || c == ')' || c == ']'
  }

  predicate IsNewline(c: char) {
    c == '\n'
  }

  predicate IsAsciiLetter(c: char) {
    'a' <= c <= 'z' || 'A' <= c <= 'Z'
  }

  /** The characters that end a sentence, those that may close one, and the letters of a token. */
  lemma MarkCharacters(c: char)
    ensures IsTerminator(c) <==> c in ".!?\U{2026}"
    ensures IsCloser(c) <==> c in "\"'\U{2019}\U{201D})]"
    ensures IsNewline(c) <==> c == '\n'
    ensures LetterOrDot(c) <==> 'A' <= c <= 'Z' || 'a' <= c <= 'z' || c == '.'
  {}

  /** What any character database grants: a newline is a space, and punctuation is not a digit. */
  ghost predicate Sane(cs: Charset) {
    cs.isSpace('\n') && forall c :: IsTerminator(c) || IsCloser(c) || IsNewline(c) ==> !cs.isDigit(c)
  }

  // ---------------------------------------------------------------- terminators

  /** Where the run of characters satisfying `p` from `i` ends. */
  function RunEnd(text: string, i: nat, p: char -> bool): (end: nat)
    requires i <= |text|
    ensures i <= end <= |text|
    ensures forall x :: i <= x < end ==> p(text[x])
    ensures end < |text| ==> !p(text[end])
    decreases |text| - i
  {
    if i < |text| && p(text[i]) then RunEnd(text, i + 1, p) else i
  }

  datatype Mark = Mark(start: nat, end: nat)

  /** The next run of terminators with its closing quotes, or run of newlines. */
  function NextMark(text: string, i: nat): (m: Option<Mark>)
    requires i <= |text|
    ensures m.Some? ==> i <= m.value.start < m.value.end <= |text|
    decreases |text| - i
  {
    if i == |text| then None
    else if IsTerminator(text[i]) then Some(Mark(i, RunEnd(text, RunEnd(text, i + 1, IsTerminator), IsCloser)))
    else if IsNewline(text[i]) then Some(Mark(i, RunEnd(text, i + 1, IsNewline)))
    else NextMark(text, i + 1)
  }

  /** A mark is all newlines or holds none, and no newline is passed over on the way to it. */
  lemma {:induction false} NextMarkMeaning(text: string, i: nat)
    requires i <= |text|
    ensures var m := NextMark(text, i);
            var upto := if m.Some? then m.value.start else |text|;
            && (forall x :: i <= x < upto ==> !IsNewline(text[x]))
            && (m.Some? ==>
                  if IsNewline(text[m.value.start]) then forall x :: m.value.start <= x < m.value.end ==> IsNewline(text[x])
                  else forall x :: m.value.start <= x < m.value.end ==> IsTerminator(text[x]) || IsCloser(text[x]))
    decreases |text| - i
  {
    if i < |text| && !IsTerminator(text[i]) && !IsNewline(text[i]) {
      NextMarkMeaning(text, i + 1);
    }
  }

  // ---------------------------------------------------------------- is it an end

  predicate LetterOrDot(c: char) {
    IsAsciiLetter(c) || c == '.'
  }

  /** The start of the run of letters and dots that ends just before `i`, not below `lo`. */
  function TailStart(text: string, lo: nat, i: nat): (q: nat)
    requires lo <= i <= |text|
    ensures lo <= q <= i
    decreases i - lo
  {
    if i > lo && LetterOrDot(text[i - 1]) then TailStart(text, lo, i - 1) else i
  }

  /** The token before the period at `i`: from the first letter of that run. */
  function TokenBefore(text: string, i: nat): string
    requires i < |text|
  {
    var lo := if i >= 24 then i - 24 else 0;
    var q := TailStart(text, lo, i);
    var p := RunEnd(text[..i], q, c => !IsAsciiLetter(c));
    text[p..i]
  }

  /** The first character after `i` that is not a space, among the next three, is lower case. */
  predicate LowerFollows(cs: Charset, text: string, i: nat)
    requires i <= |text|
  {
    var near := Slice(text, i, i + 3);
    var x := RunEnd(near, 0, cs.isSpace);
    x < |near| && cs.isLower(near[x])
  }

  predicate IsSentenceEnd(cs: Charset, text: string, m: Mark)
    requires m.start < m.end <= |text|
  {
    var i := m.start;
    if text[m.start..m.end] != "." then true
    else if i > 0 && i + 1 < |text| && cs.isDigit(text[i - 1]) && cs.isDigit(text[i + 1]) then false
    else
      var token := TokenBefore(text, i);
      if token != [] && (cs.isAbbreviation(token) || (|token| == 1 && cs.isUpper(token[0]))) then false
      else !LowerFollows(cs, text, m.end)
  }

  predicate IsBoundary(cs: Charset, text: string, m: Mark)
    requires m.start < m.end <= |text|
  {
    IsNewline(text[m.start]) || IsSentenceEnd(cs, text, m)
  }

  // ---------------------------------------------------------------- the split

  type Spans = seq<(nat, nat)>

  predicate Blank(cs: Charset, text: string, a: nat, b: nat)
    requires a <= b <= |text|
  {
    RunEnd(text[..b], a, cs.isSpace) == b
  }

  lemma BlankMeaning(cs: Charset, text: string, a: nat, b: nat)
    requires a <= b <= |text|
    ensures Blank(cs, text, a, b) <==> forall x :: a <= x < b ==> cs.isSpace(text[x])
  {}

  function Piece(cs: Charset, text: string, a: nat, b: nat): Spans
    requires a <= b <= |text|
  {
    if Blank(cs, text, a, b) then [] else [(a, b)]
  }

  /** The sentences of `text[start..]` when the text up to `pos` has been scanned. */
  function SplitFrom(cs: Charset, text: string, start: nat, pos: nat): Spans
    requires start <= pos <= |text|
    decreases |text| - pos
  {
    match NextMark(text, pos)
    case None => Piece(cs, text, start, |text|)
    case Some(m) =>
      if !IsBoundary(cs, text, m) then SplitFrom(cs, text, start, m.end)
      else Piece(cs, text, start, m.end) + SplitFrom(cs, text, m.end, m.end)
  }

  method SplitSentences(cs: Charset, text: string) returns (spans: Spans)
    ensures spans == SplitFrom(cs, text, 0, 0)
    ensures AreSentences(cs, text, spans)
  {
    SplitMeaning(cs, text);
    hide NextMark, IsBoundary, Blank, AreSentences;
    spans := [];
    var start: nat, pos: nat := 0, 0;
    var next := NextMark(text, pos);
    while next.Some?
      invariant start <= pos <= |text| && next == NextMark(text, pos)
      invariant spans + SplitFrom(cs, text, start, pos) == SplitFrom(cs, text, 0, 0)
      decreases |text| - pos
    {
      var m := next.value;
      if IsBoundary(cs, text, m) {
        if !Blank(cs, text, start, m.end) {
          spans := spans + [(start, m.end)];
        }
        start := m.end;
      }
      pos := m.end;
      next := NextMark(text, pos);
    }
    if !Blank(cs, text, start, |text|) {
      spans := spans + [(start, |text|)];
    }
  }

  // ---------------------------------------------------------------- nothing is lost

  /** Spans from `start` on, in order, disjoint and inside the text. */
  ghost predicate InOrder(spans: Spans, start: nat, end: nat) {
    && (forall i :: 0 <= i < |spans| ==> start <= spans[i].0 < spans[i].1 <= end)
    && (forall i, j :: 0 <= i < j < |spans| ==> spans[i].1 <= spans[j].0)
  }

  ghost predicate InSome(spans: Spans, x: nat) {
    exists i :: 0 <= i < |spans| && spans[i].0 <= x < spans[i].1
  }

  /** From `k` on the span is all newlines, before `k` it has none. */
  ghost predicate NewlinesFrom(text: string, span: (nat, nat), k: nat)
    requires span.1 <= |text|
  {
    && span.0 <= k <= span.1
    && (forall x :: span.0 <= x < k ==> !IsNewline(text[x]))
    && (forall x :: k <= x < span.1 ==> IsNewline(text[x]))
  }

  lemma PieceInOrder(cs: Charset, text: string, a: nat, b: nat, rest: Spans)
    requires a <= b <= |text| && InOrder(rest, b, |text|)
    ensures InOrder(Piece(cs, text, a, b) + rest, a, |text|)
  {
    if Blank(cs, text, a, b) {
      assert Piece(cs, text, a, b) + rest == rest;
    } else {
      assert a < b;
      assert Piece(cs, text, a, b) + rest == [(a, b)] + rest;
      hide Blank, Piece;
      FirstInOrder(a, b, rest, |text|);
    }
  }

  lemma FirstInOrder(a: nat, b: nat, rest: Spans, n: nat)
    requires a < b <= n && InOrder(rest, b, n)
    ensures InOrder([(a, b)] + rest, a, n)
  {
    var all := [(a, b)] + rest;
    assert all[0] == (a, b) && forall j :: 0 < j < |all| ==> all[j] == rest[j - 1];
  }

  /** Sentences are in order, disjoint and inside the text. */
  lemma {:induction false} SplitInOrder(cs: Charset, text: string, start: nat, pos: nat)
    requires start <= pos <= |text|
    ensures InOrder(SplitFrom(cs, text, start, pos), start, |text|)
    decreases |text| - pos
  {
    match NextMark(text, pos)
    case None =>
      PieceInOrder(cs, text, start, |text|, []);
      assert Piece(cs, text, start, |text|) + [] == Piece(cs, text, start, |text|);
    case Some(m) =>
      if IsBoundary(cs, text, m) {
        SplitInOrder(cs, text, m.end, m.end);
        PieceInOrder(cs, text, start, m.end, SplitFrom(cs, text, m.end, m.end));
      } else {
        SplitInOrder(cs, text, start, m.end);
      }
  }

  lemma InSomePart(p: Spans, q: Spans, x: nat)
    requires InSome(p, x) || InSome(q, x)
    ensures InSome(p + q, x)
  {
    if i :| 0 <= i < |p| && p[i].0 <= x < p[i].1 {
      assert (p + q)[i] == p[i];
    } else {
      var i :| 0 <= i < |q| && q[i].0 <= x < q[i].1;
      assert (p + q)[|p| + i] == q[i];
    }
  }

  lemma PieceCovers(cs: Charset, text: string, a: nat, b: nat, x: nat)
    requires a <= x < b <= |text|
    ensures InSome(Piece(cs, text, a, b), x) || cs.isSpace(text[x])
  {
    BlankMeaning(cs, text, a, b);
    if !Blank(cs, text, a, b) {
      assert Piece(cs, text, a, b)[0] == (a, b);
    }
  }

  /** Every character outside the sentences is white space. */
  lemma {:induction false} OutsideIsSpace(cs: Charset, text: string, start: nat, pos: nat, x: nat)
    requires start <= pos <= |text|
    requires start <= x < |text|
    ensures InSome(SplitFrom(cs, text, start, pos), x) || cs.isSpace(text[x])
    decreases |text| - pos
  {
    hide InSome, Piece, IsBoundary;
    match NextMark(text, pos)
    case None =>
      PieceCovers(cs, text, start, |text|, x);
    case Some(m) =>
      if !IsBoundary(cs, text, m) {
        OutsideIsSpace(cs, text, start, m.end, x);
      } else {
        if x < m.end {
          PieceCovers(cs, text, start, m.end, x);
        } else {
          OutsideIsSpace(cs, text, m.end, m.end, x);
        }
        if !cs.isSpace(text[x]) {
          InSomePart(Piece(cs, text, start, m.end), SplitFrom(cs, text, m.end, m.end), x);
        }
      }
  }

  /** No sentence is blank, and newlines can only stand at its end. */
  lemma {:induction false} SpanShape(cs: Charset, text: string, start: nat, pos: nat, span: (nat, nat)) returns (k: nat)
    requires start <= pos <= |text|
    requires forall x :: start <= x < pos ==> !IsNewline(text[x])
    requires span in SplitFrom(cs, text, start, pos)
    ensures span.0 < span.1 <= |text| && !Blank(cs, text, span.0, span.1) && NewlinesFrom(text, span, k)
    decreases |text| - pos
  {
    NextMarkMeaning(text, pos);
    match NextMark(text, pos)
    case None =>
      k := |text|;
    case Some(m) =>
      if !IsBoundary(cs, text, m) {
        k := SpanShape(cs, text, start, m.end, span);
      } else if span == (start, m.end) && !Blank(cs, text, start, m.end) {
        k := if IsNewline(text[m.start]) then m.start else m.end;
      } else {
        k := SpanShape(cs, text, m.end, m.end, span);
      }
  }

  /** Position `b` splits `digit . digit`. */
  predicate SplitsDecimal(cs: Charset, text: string, b: nat) {
    || (2 <= b < |text| && cs.isDigit(text[b - 2]) && text[b - 1] == '.' && cs.isDigit(text[b]))
    || (1 <= b && b + 1 < |text| && cs.isDigit(text[b - 1]) && text[b] == '.' && cs.isDigit(text[b + 1]))
  }

  lemma BoundaryOutsideDecimals(cs: Charset, text: string, pos: nat)
    requires Sane(cs) && pos <= |text|
    requires NextMark(text, pos).Some? && IsBoundary(cs, text, NextMark(text, pos).value)
    ensures !SplitsDecimal(cs, text, NextMark(text, pos).value.end)
  {
    var m := NextMark(text, pos).value;
    NextMarkMeaning(text, pos);
    assert !cs.isDigit(text[m.end - 1]);
    if m.end >= 2 && cs.isDigit(text[m.end - 2]) {
      assert m.end - 2 < m.start;
      assert text[m.start..m.end] == [text[m.start]];
    }
  }

  /** No sentence begins or ends inside a decimal number. */
  lemma {:induction false} NoDecimalIsSplit(cs: Charset, text: string, start: nat, pos: nat, span: (nat, nat))
    requires Sane(cs)
    requires start <= pos <= |text| && !SplitsDecimal(cs, text, start)
    requires span in SplitFrom(cs, text, start, pos)
    ensures !SplitsDecimal(cs, text, span.0) && !SplitsDecimal(cs, text, span.1)
    decreases |text| - pos
  {
    match NextMark(text, pos)
    case None =>
    case Some(m) =>
      if !IsBoundary(cs, text, m) {
        NoDecimalIsSplit(cs, text, start, m.end, span);
      } else {
        BoundaryOutsideDecimals(cs, text, pos);
        if span != (start, m.end) || Blank(cs, text, start, m.end) {
          NoDecimalIsSplit(cs, text, m.end, m.end, span);
        }
      }
  }

  // ---------------------------------------------------------------- exactly where a text is cut

  ghost predicate AllFrom(text: string, a: nat, b: nat, p: char -> bool)
    requires a <= b <= |text|
  {
    forall x :: a <= x < b ==> p(text[x])
  }

  /** `[s, t)` is a longest run of characters satisfying `p`. */
  ghost predicate IsRun(text: string, s: nat, t: nat, p: char -> bool) {
    && s < t <= |text| && AllFrom(text, s, t, p)
    && (s == 0 || !p(text[s - 1])) && (t == |text| || !p(text[t]))
  }

  /** `[s, e)` is a longest run of newlines, or a longest run of terminators with all closing
      quotes and brackets right behind it. */
  ghost predicate IsMark(text: string, s: nat, e: nat) {
    || IsRun(text, s, e, IsNewline)
    || exists t: nat :: IsRun(text, s, t, IsTerminator) && t <= e <= |text|
                   && AllFrom(text, t, e, IsCloser) && (e == |text| || !IsCloser(text[e]))
  }

  /** The token before the period at `i`: from its first letter at `p`, letters and dots only,
      not more than 24 characters, and not to be extended to the left within them. */
  ghost predicate TokenAt(text: string, p: nat, i: nat) {
    && p <= i < |text| && i - p <= 24 && AllFrom(text, p, i, LetterOrDot)
    && (p < i ==> IsAsciiLetter(text[p]))
    && forall q: nat :: q < p && i - q <= 24 && AllFrom(text, q, i, LetterOrDot) ==> !IsAsciiLetter(text[q])
  }

  ghost predicate BetweenDigits(cs: Charset, text: string, i: nat) {
    0 < i && i + 1 < |text| && cs.isDigit(text[i - 1]) && cs.isDigit(text[i + 1])
  }

  ghost predicate AbbreviationEnds(cs: Charset, text: string, i: nat) {
    exists p: nat :: TokenAt(text, p, i) && p < i
                && (cs.isAbbreviation(text[p..i]) || (i - p == 1 && cs.isUpper(text[p])))
  }

  /** Among the three characters from `e` on, the first that is not a space is lower case. */
  ghost predicate LowerAhead(cs: Charset, text: string, e: nat) {
    exists x :: e <= x < |text| && x < e + 3 && AllFrom(text, e, x, cs.isSpace)
                && !cs.isSpace(text[x]) && cs.isLower(text[x])
  }

  /** A lone period that does not end a sentence: between digits, after an abbreviation or an
      initial, or before lower case. */
  ghost predicate IsExcused(cs: Charset, text: string, s: nat, e: nat)
    requires s < e <= |text|
  {
    && e - s == 1 && text[s] == '.'
    && (BetweenDigits(cs, text, s) || AbbreviationEnds(cs, text, s) || LowerAhead(cs, text, e))
  }

  /** A text is cut behind every mark that is not excused. */
  ghost predicate IsCut(cs: Charset, text: string, e: nat) {
    exists s: nat :: s < e <= |text| && IsMark(text, s, e) && !IsExcused(cs, text, s, e)
  }

  /** No cut behind `a` up to and with `b`. */
  ghost predicate Uncut(cs: Charset, text: string, a: nat, b: nat) {
    forall c: nat :: a < c <= b ==> !IsCut(cs, text, c)
  }

  lemma MarkEnds(text: string, s: nat, e: nat, f: nat)
    requires IsMark(text, s, e) && IsMark(text, s, f)
    ensures e == f
  {
    if IsNewline(text[s]) {
      RunEnds(text, s, e, f, IsNewline);
    } else {
      var t: nat :| IsRun(text, s, t, IsTerminator) && t <= e <= |text|
               && AllFrom(text, t, e, IsCloser) && (e == |text| || !IsCloser(text[e]));
      var u: nat :| IsRun(text, s, u, IsTerminator) && u <= f <= |text|
               && AllFrom(text, u, f, IsCloser) && (f == |text| || !IsCloser(text[f]));
      RunEnds(text, s, t, u, IsTerminator);
    }
  }

  lemma RunEnds(text: string, s: nat, t: nat, u: nat, p: char -> bool)
    requires IsRun(text, s, t, p) && IsRun(text, s, u, p)
    ensures t == u
  {}

  /** A mark begins with its run, so no mark begins inside another. */
  lemma MarksApart(text: string, s: nat, e: nat, t: nat, f: nat)
    requires IsMark(text, s, e) && IsMark(text, t, f) && s <= t < e
    ensures s == t && e == f
  {
    if s == t {
      MarkEnds(text, s, e, f);
    } else {
      InsideMark(text, s, e, t);
      MarkBegins(text, t, f);
    }
  }

  /** Behind the first character of a mark a terminator follows a terminator, a newline a newline. */
  lemma InsideMark(text: string, s: nat, e: nat, x: nat)
    requires IsMark(text, s, e) && s < x < e
    ensures !(IsTerminator(text[x]) && !IsTerminator(text[x - 1])) && !(IsNewline(text[x]) && !IsNewline(text[x - 1]))
  {}

  lemma MarkBegins(text: string, s: nat, e: nat)
    requires IsMark(text, s, e)
    ensures s < e <= |text|
    ensures || (IsTerminator(text[s]) && (s == 0 || !IsTerminator(text[s - 1])))
            || (IsNewline(text[s]) && (s == 0 || !IsNewline(text[s - 1])))
  {}

  lemma NextMarkIsMark(text: string, i: nat)
    requires i <= |text| && (i == 0 || exists s: nat :: IsMark(text, s, i))
    ensures var m := NextMark(text, i);
            && (m.Some? ==> IsMark(text, m.value.start, m.value.end))
            && (forall s: nat, e: nat :: IsMark(text, s, e) && i < e ==> m.Some? && m.value.start <= s && m.value.end <= e)
  {
    FirstMark(text, i, i);
    forall s: nat, e: nat | IsMark(text, s, e) && i < e
      ensures NextMark(text, i).Some? && NextMark(text, i).value.start <= s && NextMark(text, i).value.end <= e
    {
      MarkBegins(text, s, e);
      if s < i {
        var r: nat :| IsMark(text, r, i);
        if r <= s {
          MarksApart(text, r, i, s, e);
        } else {
          MarksApart(text, s, e, r, i);
        }
      }
      assert NextMark(text, i).Some?;
      var m := NextMark(text, i).value;
      if m.start == s {
        MarkEnds(text, s, e, m.end);
      } else if s < m.end {
        MarksApart(text, m.start, m.end, s, e);
      }
    }
  }

  /** Scanning from `j` with no terminator or newline since `i`, a place no mark straddles. */
  lemma {:induction false} FirstMark(text: string, i: nat, j: nat)
    requires i <= j <= |text| && (i == 0 || exists s: nat :: IsMark(text, s, i))
    requires forall x :: i <= x < j ==> !IsTerminator(text[x]) && !IsNewline(text[x])
    ensures var m := NextMark(text, j);
            && (m.Some? ==> IsMark(text, m.value.start, m.value.end))
            && (forall x :: j <= x < (if m.Some? then m.value.start else |text|) ==> !IsTerminator(text[x]) && !IsNewline(text[x]))
    decreases |text| - j
  {
    if j < |text| {
      if IsTerminator(text[j]) {
        var t := RunEnd(text, j + 1, IsTerminator);
        assert IsRun(text, j, t, IsTerminator);
      } else if IsNewline(text[j]) {
        assert IsRun(text, j, RunEnd(text, j + 1, IsNewline), IsNewline);
      } else {
        FirstMark(text, i, j + 1);
      }
    }
  }

  lemma {:induction false} TailStartMeaning(text: string, lo: nat, i: nat)
    requires lo <= i <= |text|
    ensures var q := TailStart(text, lo, i);
            AllFrom(text, q, i, LetterOrDot) && (q > lo ==> !LetterOrDot(text[q - 1]))
    decreases i - lo
  {
    if i > lo && LetterOrDot(text[i - 1]) {
      TailStartMeaning(text, lo, i - 1);
    }
  }

  lemma TokenBeforeMeaning(text: string, i: nat) returns (p: nat)
    requires i < |text|
    ensures TokenAt(text, p, i) && TokenBefore(text, i) == text[p..i]
  {
    var lo := if i >= 24 then i - 24 else 0;
    var q := TailStart(text, lo, i);
    TailStartMeaning(text, lo, i);
    p := RunEnd(text[..i], q, c => !IsAsciiLetter(c));
    forall r: nat | r < p && i - r <= 24 && AllFrom(text, r, i, LetterOrDot) ensures !IsAsciiLetter(text[r]) {
      assert r >= q;
      assert text[..i][r] == text[r];
    }
  }

  lemma OneToken(text: string, p: nat, q: nat, i: nat)
    requires TokenAt(text, p, i) && TokenAt(text, q, i) && p < i && q < i
    ensures p == q
  {}

  lemma NoToken(text: string, p: nat, q: nat, i: nat)
    requires TokenAt(text, p, i) && TokenAt(text, q, i) && p == i
    ensures q == i
  {}

  lemma LowerFollowsMeaning(cs: Charset, text: string, e: nat)
    requires e <= |text|
    ensures LowerFollows(cs, text, e) <==> LowerAhead(cs, text, e)
  {
    var near := Slice(text, e, e + 3);
    var n := RunEnd(near, 0, cs.isSpace);
    assert forall x :: 0 <= x < |near| ==> near[x] == text[e + x];
    if LowerFollows(cs, text, e) {
      forall x | e <= x < e + n ensures cs.isSpace(text[x]) {
        assert near[x - e] == text[x];
      }
    }
    if x :| e <= x < |text| && x < e + 3 && AllFrom(text, e, x, cs.isSpace) && !cs.isSpace(text[x]) && cs.isLower(text[x]) {
      assert near[x - e] == text[x];
      assert n == x - e;
    }
  }

  lemma AbbreviationMeaning(cs: Charset, text: string, i: nat)
    requires i < |text|
    ensures var token := TokenBefore(text, i);
            (token != [] && (cs.isAbbreviation(token) || (|token| == 1 && cs.isUpper(token[0])))) <==> AbbreviationEnds(cs, text, i)
  {
    var p := TokenBeforeMeaning(text, i);
    hide TokenAt, TokenBefore;
    if q: nat :| TokenAt(text, q, i) && q < i && (cs.isAbbreviation(text[q..i]) || (i - q == 1 && cs.isUpper(text[q]))) {
      TokenIsUnique(text, p, q, i);
    }
    assert p <= i by { TokenInside(text, p, i); }
  }

  lemma TokenInside(text: string, p: nat, i: nat)
    requires TokenAt(text, p, i)
    ensures p <= i < |text|
  {}

  lemma TokenIsUnique(text: string, p: nat, q: nat, i: nat)
    requires TokenAt(text, p, i) && TokenAt(text, q, i)
    ensures p == q
  {
    if p < i && q < i {
      OneToken(text, p, q, i);
    } else if p == i {
      NoToken(text, p, q, i);
    } else {
      NoToken(text, q, p, i);
    }
  }

  lemma OneMark(text: string, r: nat, s: nat, e: nat)
    requires IsMark(text, r, e) && IsMark(text, s, e)
    ensures r == s
  {
    MarkBegins(text, r, e);
    MarkBegins(text, s, e);
    if r <= s {
      MarksApart(text, r, e, s, e);
    } else {
      MarksApart(text, s, e, r, e);
    }
  }

  lemma BoundaryIsExcused(cs: Charset, text: string, m: Mark)
    requires m.start < m.end <= |text|
    ensures IsBoundary(cs, text, m) <==> !IsExcused(cs, text, m.start, m.end)
  {
    var s, e := m.start, m.end;
    assert text[s..e] == "." <==> e - s == 1 && text[s] == '.';
    AbbreviationMeaning(cs, text, s);
    LowerFollowsMeaning(cs, text, e);
    hide TokenBefore, LowerFollows, AbbreviationEnds, LowerAhead;
  }

  /** The tests of the program decide exactly where a text is cut. */
  lemma BoundaryIsCut(cs: Charset, text: string, m: Mark)
    requires IsMark(text, m.start, m.end)
    ensures m.start < m.end <= |text| && (IsBoundary(cs, text, m) <==> IsCut(cs, text, m.end))
  {
    MarkBegins(text, m.start, m.end);
    BoundaryIsExcused(cs, text, m);
    hide IsMark, IsBoundary, IsExcused;
    forall r: nat | IsMark(text, r, m.end) ensures r == m.start {
      OneMark(text, r, m.start, m.end);
    }
  }

  /** `[a, b)` runs from one cut, or the start of the text, to the next, or its end, and is not blank. */
  ghost predicate IsSentence(cs: Charset, text: string, from: nat, a: nat, b: nat) {
    && from <= a < b <= |text|
    && (a == from || IsCut(cs, text, a)) && (b == |text| || IsCut(cs, text, b))
    && (forall c: nat :: a < c < b ==> !IsCut(cs, text, c))
    && exists x :: a <= x < b && !cs.isSpace(text[x])
  }

  lemma CutsBehind(cs: Charset, text: string, pos: nat)
    requires pos <= |text| && (pos == 0 || exists s: nat :: IsMark(text, s, pos))
    ensures var m := NextMark(text, pos);
            if m.None? then Uncut(cs, text, pos, |text|)
            else
              && Uncut(cs, text, pos, m.value.end - 1)
              && IsMark(text, m.value.start, m.value.end)
              && (IsBoundary(cs, text, m.value) <==> IsCut(cs, text, m.value.end))
  {
    NextMarkIsMark(text, pos);
    if NextMark(text, pos).Some? {
      BoundaryIsCut(cs, text, NextMark(text, pos).value);
    }
    hide IsMark, IsBoundary, NextMark, IsExcused;
  }

  lemma LastSentence(cs: Charset, text: string, start: nat, a: nat, b: nat)
    requires start <= |text| && Uncut(cs, text, start, |text|)
    ensures (a, b) in Piece(cs, text, start, |text|) <==> IsSentence(cs, text, start, a, b)
  {
    hide IsCut;
    BlankMeaning(cs, text, start, |text|);
  }

  lemma NextSentence(cs: Charset, text: string, start: nat, e: nat, a: nat, b: nat, rest: Spans)
    requires start < e <= |text| && IsCut(cs, text, e) && Uncut(cs, text, start, e - 1)
    requires (a, b) in rest <==> IsSentence(cs, text, e, a, b)
    ensures (a, b) in Piece(cs, text, start, e) + rest <==> IsSentence(cs, text, start, a, b)
  {
    hide IsCut;
    BlankMeaning(cs, text, start, e);
  }

  lemma UncutJoin(cs: Charset, text: string, a: nat, b: nat, c: nat)
    requires Uncut(cs, text, a, b) && Uncut(cs, text, b, c)
    ensures Uncut(cs, text, a, c)
  {
    hide IsCut;
  }

  lemma UncutMore(cs: Charset, text: string, a: nat, e: nat)
    requires e > 0 && Uncut(cs, text, a, e - 1) && !IsCut(cs, text, e)
    ensures Uncut(cs, text, a, e)
  {
    hide IsCut;
  }

  lemma {:induction false} SplitFromIff(cs: Charset, text: string, start: nat, pos: nat, a: nat, b: nat)
    requires start <= pos <= |text| && (pos == 0 || exists s: nat :: IsMark(text, s, pos))
    requires Uncut(cs, text, start, pos)
    ensures (a, b) in SplitFrom(cs, text, start, pos) <==> IsSentence(cs, text, start, a, b)
    decreases |text| - pos
  {
    CutsBehind(cs, text, pos);
    hide IsCut, IsMark, IsBoundary, Piece, IsSentence, Uncut;
    match NextMark(text, pos)
    case None =>
      UncutJoin(cs, text, start, pos, |text|);
      LastSentence(cs, text, start, a, b);
    case Some(m) =>
      UncutJoin(cs, text, start, pos, m.end - 1);
      if !IsBoundary(cs, text, m) {
        UncutMore(cs, text, start, m.end);
        SplitFromIff(cs, text, start, m.end, a, b);
      } else {
        UncutNothing(cs, text, m.end);
        SplitFromIff(cs, text, m.end, m.end, a, b);
        NextSentence(cs, text, start, m.end, a, b, SplitFrom(cs, text, m.end, m.end));
      }
  }

  lemma UncutNothing(cs: Charset, text: string, a: nat)
    ensures Uncut(cs, text, a, a)
  {}

  /** Exactly what the sentences of a text are: the stretches that are not blank between one cut
      and the next. */
  lemma SentencesIff(cs: Charset, text: string, a: nat, b: nat)
    ensures (a, b) in SplitFrom(cs, text, 0, 0) <==> IsSentence(cs, text, 0, a, b)
  {
    UncutNothing(cs, text, 0);
    SplitFromIff(cs, text, 0, 0, a, b);
  }

  /** All sentences of the text, in its order. */
  ghost predicate AreSentences(cs: Charset, text: string, spans: Spans) {
    InOrder(spans, 0, |text|) && forall a: nat, b: nat :: (a, b) in spans <==> IsSentence(cs, text, 0, a, b)
  }

  lemma SplitMeaning(cs: Charset, text: string)
    ensures AreSentences(cs, text, SplitFrom(cs, text, 0, 0))
  {
    SplitInOrder(cs, text, 0, 0);
    hide SplitFrom, IsSentence, InOrder;
    forall a: nat, b: nat ensures (a, b) in SplitFrom(cs, text, 0, 0) <==> IsSentence(cs, text, 0, a, b) {
      SentencesIff(cs, text, a, b);
    }
  }

  // ---------------------------------------------------------------- stripped units

  datatype Unit = Unit(text: string, start: nat, end: nat)

  /** Where the text before `b` that is not trailing white space ends. */
  function StripEnd(text: string, a: nat, b: nat, isSpace: char -> bool): (e: nat)
    requires a <= b <= |text|
    ensures a <= e <= b
    ensures e > a ==> !isSpace(text[e - 1])
    ensures forall x :: e <= x < b ==> isSpace(text[x])
    decreases b - a
  {
    if b > a && isSpace(text[b - 1]) then StripEnd(text, a, b - 1, isSpace) else b
  }

  function Strip(cs: Charset, text: string, span: (nat, nat)): Unit
    requires span.0 <= span.1 <= |text|
  {
    var start := RunEnd(text[..span.1], span.0, cs.isSpace);
    var end := StripEnd(text, start, span.1, cs.isSpace);
    Unit(text[start..end], start, end)
  }

  ghost predicate Inside(spans: Spans, text: string) {
    forall i :: 0 <= i < |spans| ==> spans[i].0 <= spans[i].1 <= |text|
  }

  /** The stripped sentences with enough words, in order. */
  function UnitsOf(cs: Charset, a: Alphabet, minWords: nat, text: string, spans: Spans): seq<Unit>
    requires Inside(spans, text)
  {
    if spans == [] then []
    else
      var u := Strip(cs, text, spans[|spans| - 1]);
      UnitsOf(cs, a, minWords, text, spans[..|spans| - 1]) + (if |Tokenize(a, u.text)| >= minWords then [u] else [])
  }

  // ---------------------------------------------------------------- exactly which units there are

  /** `u` is the stretch `[p, q)` without the white space at its ends. */
  ghost predicate StrippedFrom(cs: Charset, text: string, u: Unit, p: nat, q: nat) {
    && p <= u.start < u.end <= q <= |text| && u.text == text[u.start..u.end]
    && !cs.isSpace(text[u.start]) && !cs.isSpace(text[u.end - 1])
    && AllFrom(text, p, u.start, cs.isSpace) && AllFrom(text, u.end, q, cs.isSpace)
  }

  /** `u` is a stripped sentence of at least `minWords` words. */
  ghost predicate IsUnit(cs: Charset, a: Alphabet, minWords: nat, text: string, u: Unit) {
    && |Tokenize(a, u.text)| >= minWords
    && exists p: nat, q: nat :: IsSentence(cs, text, 0, p, q) && StrippedFrom(cs, text, u, p, q)
  }

  /** In the order of the text. */
  ghost predicate UnitsInOrder(units: seq<Unit>) {
    forall i, j :: 0 <= i < j < |units| ==> units[i].end <= units[j].start
  }

  lemma {:induction false} UnitsAreStripped(cs: Charset, a: Alphabet, minWords: nat, text: string, spans: Spans, u: Unit)
    requires Inside(spans, text)
    ensures u in UnitsOf(cs, a, minWords, text, spans) <==>
            |Tokenize(a, u.text)| >= minWords && exists i :: 0 <= i < |spans| && u == Strip(cs, text, spans[i])
  {
    hide Tokenize, Strip;
    if spans != [] {
      var init, last := spans[..|spans| - 1], |spans| - 1;
      UnitsAreStripped(cs, a, minWords, text, init, u);
      if i :| 0 <= i < |init| && u == Strip(cs, text, init[i]) {
        assert u == Strip(cs, text, spans[i]);
      }
      if i :| 0 <= i < |spans| && u == Strip(cs, text, spans[i]) {
        assert i < last ==> init[i] == spans[i];
      }
    }
  }

  lemma StripIsStripped(cs: Charset, text: string, p: nat, q: nat, u: Unit)
    requires p <= q <= |text| && !Blank(cs, text, p, q)
    ensures u == Strip(cs, text, (p, q)) <==> StrippedFrom(cs, text, u, p, q)
  {
    StripShape(cs, text, (p, q));
    StripText(cs, text, (p, q));
    var s := Strip(cs, text, (p, q));
    hide Strip, Blank;
    if StrippedFrom(cs, text, u, p, q) {
      assert u.start == s.start;
      assert u.end == s.end;
    }
  }

  lemma SentenceIsStripped(cs: Charset, text: string, p: nat, q: nat, u: Unit)
    requires IsSentence(cs, text, 0, p, q)
    ensures p <= q <= |text| && (u == Strip(cs, text, (p, q)) <==> StrippedFrom(cs, text, u, p, q))
  {
    BlankMeaning(cs, text, p, q);
    StripIsStripped(cs, text, p, q, u);
  }

  lemma SpanOfUnit(cs: Charset, text: string, spans: Spans, i: nat, u: Unit) returns (p: nat, q: nat)
    requires i < |spans| && spans == SplitFrom(cs, text, 0, 0) && Inside(spans, text)
    requires u == Strip(cs, text, spans[i])
    ensures IsSentence(cs, text, 0, p, q) && StrippedFrom(cs, text, u, p, q)
  {
    hide Strip, SplitFrom, IsSentence, StrippedFrom;
    p, q := spans[i].0, spans[i].1;
    assert spans[i] == (p, q) && (p, q) in spans;
    SentencesIff(cs, text, p, q);
    SentenceIsStripped(cs, text, p, q, u);
  }

  lemma SpanOfSentence(cs: Charset, text: string, spans: Spans, p: nat, q: nat, u: Unit) returns (i: nat)
    requires spans == SplitFrom(cs, text, 0, 0) && Inside(spans, text)
    requires IsSentence(cs, text, 0, p, q) && StrippedFrom(cs, text, u, p, q)
    ensures i < |spans| && u == Strip(cs, text, spans[i])
  {
    hide Strip, SplitFrom, IsSentence, StrippedFrom;
    SentencesIff(cs, text, p, q);
    SentenceIsStripped(cs, text, p, q, u);
    i :| 0 <= i < |spans| && spans[i] == (p, q);
  }

  /** The units are exactly the stripped sentences with enough words. */
  lemma UnitsIff(cs: Charset, a: Alphabet, minWords: nat, text: string, u: Unit)
    requires Inside(SplitFrom(cs, text, 0, 0), text)
    ensures u in UnitsOf(cs, a, minWords, text, SplitFrom(cs, text, 0, 0)) <==> IsUnit(cs, a, minWords, text, u)
  {
    var spans := SplitFrom(cs, text, 0, 0);
    UnitsAreStripped(cs, a, minWords, text, spans, u);
    hide Tokenize, UnitsOf, SplitFrom, Strip, StrippedFrom, IsSentence;
    if i :| 0 <= i < |spans| && u == Strip(cs, text, spans[i]) {
      var p, q := SpanOfUnit(cs, text, spans, i, u);
    }
    if p: nat, q: nat :| IsSentence(cs, text, 0, p, q) && StrippedFrom(cs, text, u, p, q) {
      var i := SpanOfSentence(cs, text, spans, p, q, u);
    }
  }

  lemma StripInside(cs: Charset, text: string, span: (nat, nat))
    requires span.0 <= span.1 <= |text|
    ensures span.0 <= Strip(cs, text, span).start <= Strip(cs, text, span).end <= span.1
  {}

  lemma {:induction false} UnitsFollowSpans(cs: Charset, a: Alphabet, minWords: nat, text: string, spans: Spans)
    requires Inside(spans, text) && InOrder(spans, 0, |text|)
    ensures UnitsInOrder(UnitsOf(cs, a, minWords, text, spans))
  {
    hide Tokenize, Strip;
    if spans != [] {
      var init, last := spans[..|spans| - 1], spans[|spans| - 1];
      UnitsFollowSpans(cs, a, minWords, text, init);
      var units := UnitsOf(cs, a, minWords, text, init);
      StripInside(cs, text, last);
      forall k | 0 <= k < |units| ensures units[k].end <= Strip(cs, text, last).start {
        UnitsAreStripped(cs, a, minWords, text, init, units[k]);
        assert units[k] in units;
        var i :| 0 <= i < |init| && units[k] == Strip(cs, text, init[i]);
        StripInside(cs, text, init[i]);
        assert init[i] == spans[i];
      }
    }
  }

  /** The units worth embedding. */
  method Sentences(cs: Charset, a: Alphabet, minWords: nat, text: string) returns (units: seq<Unit>)
    ensures Inside(SplitFrom(cs, text, 0, 0), text)
    ensures units == UnitsOf(cs, a, minWords, text, SplitFrom(cs, text, 0, 0))
    ensures UnitsInOrder(units) && forall u :: u in units <==> IsUnit(cs, a, minWords, text, u)
  {
    hide Strip, Tokenize, SplitFrom, IsUnit, UnitsInOrder;
    var spans := SplitSentences(cs, text);
    SplitInOrder(cs, text, 0, 0);
    units := [];
    for n := 0 to |spans|
      invariant units == UnitsOf(cs, a, minWords, text, spans[..n])
    {
      assert spans[..n + 1][..n] == spans[..n];
      var u := Strip(cs, text, spans[n]);
      if |Tokenize(a, u.text)| >= minWords {
        units := units + [u];
      }
    }
    assert spans[..|spans|] == spans;
    UnitsFollowSpans(cs, a, minWords, text, spans);
    forall u ensures u in units <==> IsUnit(cs, a, minWords, text, u) {
      UnitsIff(cs, a, minWords, text, u);
    }
  }

  /** A unit is the document text at its offsets, non-empty, without white space at either
      end and without any newline. */
  lemma UnitShape(cs: Charset, text: string, span: (nat, nat))
    requires Sane(cs)
    requires span in SplitFrom(cs, text, 0, 0)
    ensures span.0 <= span.1 <= |text|
    ensures var u := Strip(cs, text, span);
            && span.0 <= u.start < u.end <= span.1
            && u.text == text[u.start..u.end]
            && !cs.isSpace(text[u.start]) && !cs.isSpace(text[u.end - 1])
            && (forall x :: span.0 <= x < span.1 && !(u.start <= x < u.end) ==> cs.isSpace(text[x]))
            && '\n' !in u.text
  {
    var k := SpanShape(cs, text, 0, 0, span);
    StripShape(cs, text, span);
    StripHasNoNewline(cs, text, span, k);
  }

  lemma StripShape(cs: Charset, text: string, span: (nat, nat))
    requires span.0 <= span.1 <= |text| && !Blank(cs, text, span.0, span.1)
    ensures var u := Strip(cs, text, span);
            && span.0 <= u.start < u.end <= span.1
            && !cs.isSpace(text[u.start]) && !cs.isSpace(text[u.end - 1])
            && (forall x :: span.0 <= x < span.1 && !(u.start <= x < u.end) ==> cs.isSpace(text[x]))
  {}

  lemma StripHasNoNewline(cs: Charset, text: string, span: (nat, nat), k: nat)
    requires Sane(cs)
    requires span.0 <= span.1 <= |text| && !Blank(cs, text, span.0, span.1)
    requires NewlinesFrom(text, span, k)
    ensures '\n' !in Strip(cs, text, span).text
  {
    StripShape(cs, text, span);
    hide Strip, Blank;
    var u := Strip(cs, text, span);
    StripText(cs, text, span);
    assert u.end <= k by {
      assert u.end > k ==> IsNewline(text[u.end - 1]);
    }
    forall i | 0 <= i < |u.text| ensures u.text[i] != '\n' {
      assert !IsNewline(text[u.start + i]);
    }
  }

  lemma StripText(cs: Charset, text: string, span: (nat, nat))
    requires span.0 <= span.1 <= |text|
    ensures var u := Strip(cs, text, span);
            u.start <= u.end <= |text| && u.text == text[u.start..u.end]
  {}
}
