/** Word tokens with their offsets: the scanner behind the matcher's word pattern
    (a run of word characters, continued across single internal apostrophes).
    Which characters are word characters, and how a word is folded before
    comparison, are parameters. */
module Tokenizer {

  datatype Token = Token(norm: string, start: nat, end: nat)

  datatype Alphabet = Alphabet(isWord: char -> bool, fold: string -> string)

  predicate IsApostrophe(c: char) {
    c == '\'' || c == '\U{2019}'
  }

  /** Where the word whose first character is just before `i` ends. */
  function WordEnd(a: Alphabet, text: string, i: nat): (end: nat)
    requires i <= |text|
    ensures i <= end <= |text|
    decreases |text| - i
  {
    if i < |text| && a.isWord(text[i]) then
      WordEnd(a, text, i + 1)
    else if i + 1 < |text| && IsApostrophe(text[i]) && a.isWord(text[i + 1]) then
      WordEnd(a, text, i + 2)
    else
      i
  }

  /** The tokens of `text[i..]`, left to right. */
  function TokensFrom(a: Alphabet, text: string, i: nat): seq<Token>
    requires i <= |text|
    decreases |text| - i
  {
    if i == |text| then
      []
    else if a.isWord(text[i]) then
      var end := WordEnd(a, text, i + 1);
      [Token(a.fold(text[i..end]), i, end)] + TokensFrom(a, text, end)
    else
      TokensFrom(a, text, i + 1)
  }

  function Tokenize(a: Alphabet, text: string): seq<Token> {
    TokensFrom(a, text, 0)
  }

  function Norms(tokens: seq<Token>): (words: seq<string>)
    ensures |words| == |tokens|
    ensures forall i :: 0 <= i < |words| ==> words[i] == tokens[i].norm
  {
    seq(|tokens|, i requires 0 <= i < |tokens| => tokens[i].norm)
  }

  /** Non-empty spans, left to right, never overlapping. */
  ghost predicate Ordered(tokens: seq<Token>) {
    && (forall i :: 0 <= i < |tokens| ==> tokens[i].start < tokens[i].end)
    && (forall i, j :: 0 <= i < j < |tokens| ==> tokens[i].end <= tokens[j].start)
  }

  ghost predicate InsideToken(tokens: seq<Token>, x: nat) {
    exists t :: t in tokens && t.start <= x < t.end
  }

  /** Tokens are ordered, lie inside the text, and every word character is inside one. */
  lemma {:induction false} TokensFromTile(a: Alphabet, text: string, i: nat)
    requires i <= |text|
    ensures var ts := TokensFrom(a, text, i);
            && Ordered(ts)
            && (forall t :: t in ts ==> i <= t.start && t.end <= |text|)
            && (forall x :: i <= x < |text| && a.isWord(text[x]) ==> InsideToken(ts, x))
    decreases |text| - i
  {
    if i < |text| {
      var ts := TokensFrom(a, text, i);
      if a.isWord(text[i]) {
        var end := WordEnd(a, text, i + 1);
        var rest := TokensFrom(a, text, end);
        TokensFromTile(a, text, end);
        assert ts == [ts[0]] + rest;
        forall x | i <= x < |text| && a.isWord(text[x]) ensures InsideToken(ts, x) {
          if x < end {
            assert ts[0] in ts;
          } else {
            var t :| t in rest && t.start <= x < t.end;
            assert t in ts;
          }
        }
      } else {
        TokensFromTile(a, text, i + 1);
      }
    }
  }

  lemma TokenizeTiles(a: Alphabet, text: string)
    ensures var ts := Tokenize(a, text);
            && Ordered(ts)
            && (forall t :: t in ts ==> t.end <= |text|)
            && (forall x :: 0 <= x < |text| && a.isWord(text[x]) ==> InsideToken(ts, x))
  {
    TokensFromTile(a, text, 0);
  }

  /** A word character, or a single apostrophe between two of them. */
  predicate InWord(a: Alphabet, text: string, x: nat)
    requires x < |text|
  {
    || a.isWord(text[x])
    || ((text[x] == '\'' || text[x] == '\U{2019}') && 0 < x && x + 1 < |text| && a.isWord(text[x - 1]) && a.isWord(text[x + 1]))
  }

  /** `[s, e)` is a longest stretch of such characters. */
  ghost predicate IsWholeWord(a: Alphabet, text: string, s: nat, e: nat) {
    && s < e <= |text|
    && (forall x :: s <= x < e ==> InWord(a, text, x))
    && (s == 0 || !InWord(a, text, s - 1))
    && (e == |text| || !InWord(a, text, e))
  }

  lemma {:induction false} WordEndIsEnd(a: Alphabet, text: string, i: nat)
    requires 0 < i <= |text| && a.isWord(text[i - 1])
    ensures var e := WordEnd(a, text, i);
            (forall x :: i <= x < e ==> InWord(a, text, x)) && (e == |text| || !InWord(a, text, e))
    decreases |text| - i
  {
    if i < |text| && a.isWord(text[i]) {
      WordEndIsEnd(a, text, i + 1);
    } else if i + 1 < |text| && IsApostrophe(text[i]) && a.isWord(text[i + 1]) {
      WordEndIsEnd(a, text, i + 2);
    }
  }

  lemma SameWord(a: Alphabet, text: string, s: nat, e: nat, t: nat, f: nat)
    requires IsWholeWord(a, text, s, e) && IsWholeWord(a, text, t, f) && s <= t < e
    ensures s == t && e == f
  {
    assert InWord(a, text, t);
  }

  lemma {:induction false} TokensFromAreWords(a: Alphabet, text: string, i: nat, t: Token)
    requires i <= |text| && (0 < i < |text| ==> !InWord(a, text, i - 1) || !InWord(a, text, i))
    ensures t in TokensFrom(a, text, i) <==>
            i <= t.start && IsWholeWord(a, text, t.start, t.end) && t.norm == a.fold(text[t.start..t.end])
    decreases |text| - i
  {
    if i < |text| {
      if a.isWord(text[i]) {
        var e := WordEnd(a, text, i + 1);
        WordEndIsEnd(a, text, i + 1);
        assert IsWholeWord(a, text, i, e);
        TokensFromAreWords(a, text, e, t);
        if i <= t.start < e && IsWholeWord(a, text, t.start, t.end) {
          SameWord(a, text, i, e, t.start, t.end);
        }
      } else {
        assert i > 0 && a.isWord(text[i - 1]) ==> InWord(a, text, i - 1);
        assert !InWord(a, text, i);
        TokensFromAreWords(a, text, i + 1, t);
      }
    }
  }

  /** The tokens are exactly the longest stretches of word characters and single apostrophes
      between word characters, each with its folded text. */
  lemma TokensAreWords(a: Alphabet, text: string, t: Token)
    ensures t in Tokenize(a, text) <==>
            IsWholeWord(a, text, t.start, t.end) && t.norm == a.fold(text[t.start..t.end])
  {
    TokensFromAreWords(a, text, 0, t);
  }

  // ---------------------------------------------------------------- words of parts of a text

  lemma NormsCons(t: Token, rest: seq<Token>)
    ensures Norms([t] + rest) == [t.norm] + Norms(rest)
  {}

  lemma {:induction false} WordEndShift(a: Alphabet, p: string, t: string, i: nat)
    requires i <= |t|
    ensures WordEnd(a, p + t, |p| + i) == |p| + WordEnd(a, t, i)
    decreases |t| - i
  {
    if i < |t| && a.isWord(t[i]) {
      WordEndShift(a, p, t, i + 1);
    } else if i + 1 < |t| && IsApostrophe(t[i]) && a.isWord(t[i + 1]) {
      WordEndShift(a, p, t, i + 2);
    }
  }

  /** Text in front does not change the words behind it. */
  lemma {:induction false} TokensShift(a: Alphabet, p: string, t: string, i: nat)
    requires i <= |t|
    ensures Norms(TokensFrom(a, p + t, |p| + i)) == Norms(TokensFrom(a, t, i))
    decreases |t| - i
  {
    if i < |t| {
      if a.isWord(t[i]) {
        WordEndShift(a, p, t, i + 1);
        var end := WordEnd(a, t, i + 1);
        TokensShift(a, p, t, end);
        assert (p + t)[|p| + i..|p| + end] == t[i..end];
        NormsCons(Token(a.fold(t[i..end]), |p| + i, |p| + end), TokensFrom(a, p + t, |p| + end));
        NormsCons(Token(a.fold(t[i..end]), i, end), TokensFrom(a, t, end));
      } else {
        TokensShift(a, p, t, i + 1);
      }
    }
  }

  lemma {:induction false} WordEndJoin(a: Alphabet, p: string, c: char, q: string, i: nat)
    requires i <= |p| && !a.isWord(c) && !IsApostrophe(c)
    ensures WordEnd(a, p + ([c] + q), i) == WordEnd(a, p, i)
    decreases |p| - i
  {
    var text := p + ([c] + q);
    assert text[|p|] == c && forall x :: 0 <= x < |p| ==> text[x] == p[x];
    if i < |p| {
      if a.isWord(p[i]) {
        WordEndJoin(a, p, c, q, i + 1);
      } else if i + 1 < |p| && IsApostrophe(p[i]) && a.isWord(p[i + 1]) {
        WordEndJoin(a, p, c, q, i + 2);
      }
    }
  }

  lemma {:induction false} TokensJoin(a: Alphabet, p: string, c: char, q: string, i: nat)
    requires i <= |p| && !a.isWord(c) && !IsApostrophe(c)
    ensures Norms(TokensFrom(a, p + ([c] + q), i)) == Norms(TokensFrom(a, p, i)) + Norms(Tokenize(a, q))
    decreases |p| - i
  {
    var text := p + ([c] + q);
    if i == |p| {
      assert text == (p + [c]) + q && text[i] == c;
      assert TokensFrom(a, text, i) == TokensFrom(a, text, i + 1);
      TokensShift(a, p + [c], q, 0);
      assert Norms(TokensFrom(a, p, i)) == [];
    } else if a.isWord(p[i]) {
      assert text[i] == p[i];
      var end := WordEnd(a, p, i + 1);
      WordEndJoin(a, p, c, q, i + 1);
      TokensJoin(a, p, c, q, end);
      assert text[i..end] == p[i..end];
      NormsCons(Token(a.fold(p[i..end]), i, end), TokensFrom(a, text, end));
      NormsCons(Token(a.fold(p[i..end]), i, end), TokensFrom(a, p, end));
    } else {
      assert text[i] == p[i];
      TokensJoin(a, p, c, q, i + 1);
    }
  }

  ghost predicate NoWords(a: Alphabet, text: string) {
    forall i :: 0 <= i < |text| ==> !a.isWord(text[i])
  }

  lemma {:induction false} WordEndWithTail(a: Alphabet, t: string, q: string, i: nat)
    requires NoWords(a, q) && i <= |t|
    ensures WordEnd(a, t + q, i) == WordEnd(a, t, i)
    decreases |t| - i
  {
    if i < |t| && a.isWord(t[i]) {
      WordEndWithTail(a, t, q, i + 1);
    } else if i + 1 < |t| && IsApostrophe(t[i]) && a.isWord(t[i + 1]) {
      WordEndWithTail(a, t, q, i + 2);
    }
  }

  lemma {:induction false} TailHasNoTokens(a: Alphabet, t: string, q: string, i: nat)
    requires NoWords(a, q) && |t| <= i <= |t + q|
    ensures TokensFrom(a, t + q, i) == []
    decreases |t + q| - i
  {
    if i < |t + q| {
      assert (t + q)[i] == q[i - |t|];
      TailHasNoTokens(a, t, q, i + 1);
    }
  }

  lemma {:induction false} TokensWithTail(a: Alphabet, t: string, q: string, i: nat)
    requires NoWords(a, q) && i <= |t|
    ensures TokensFrom(a, t + q, i) == TokensFrom(a, t, i)
    decreases |t| - i
  {
    if i == |t| {
      TailHasNoTokens(a, t, q, i);
    } else if a.isWord(t[i]) {
      WordEndWithTail(a, t, q, i + 1);
      var end := WordEnd(a, t, i + 1);
      assert (t + q)[i..end] == t[i..end];
      TokensWithTail(a, t, q, end);
    } else {
      TokensWithTail(a, t, q, i + 1);
    }
  }

  lemma {:induction false} SkipBlanks(a: Alphabet, text: string, n: nat, i: nat)
    requires i <= n <= |text|
    requires forall x :: i <= x < n ==> !a.isWord(text[x])
    ensures TokensFrom(a, text, i) == TokensFrom(a, text, n)
    decreases n - i
  {
    if i < n {
      SkipBlanks(a, text, n, i + 1);
    }
  }

  lemma WordsBetween(a: Alphabet, p: string, core: string, q: string)
    requires NoWords(a, p) && NoWords(a, q)
    ensures Norms(Tokenize(a, p + (core + q))) == Norms(Tokenize(a, core))
  {
    SkipBlanks(a, p + (core + q), |p|, 0);
    TokensShift(a, p, core + q, 0);
    TokensWithTail(a, core, q, 0);
  }

  /** The tokens from a token on. */
  lemma {:induction false} TokensFromToken(a: Alphabet, text: string, i: nat, y: nat)
    requires i <= |text| && y < |TokensFrom(a, text, i)|
    ensures var ts := TokensFrom(a, text, i);
            i <= ts[y].start <= |text| && TokensFrom(a, text, ts[y].start) == ts[y..]
    decreases |text| - i
  {
    if a.isWord(text[i]) {
      if y > 0 {
        TokensFromToken(a, text, WordEnd(a, text, i + 1), y - 1);
      }
    } else {
      TokensFromToken(a, text, i + 1, y);
    }
  }

  lemma {:induction false} WordEndCut(a: Alphabet, text: string, i: nat, e: nat)
    requires i <= |text| && WordEnd(a, text, i) <= e <= |text|
    ensures WordEnd(a, text[..e], i) == WordEnd(a, text, i)
    decreases |text| - i
  {
    if i < |text| && a.isWord(text[i]) {
      WordEndCut(a, text, i + 1, e);
    } else if i + 1 < |text| && IsApostrophe(text[i]) && a.isWord(text[i + 1]) {
      WordEndCut(a, text, i + 2, e);
    }
  }

  /** Cutting a text off at the end of a token keeps the tokens up to there. */
  lemma {:induction false} TokensCut(a: Alphabet, text: string, i: nat, n: nat)
    requires i <= |text| && 0 < n <= |TokensFrom(a, text, i)|
    ensures var ts := TokensFrom(a, text, i);
            var e := ts[n - 1].end;
            i < e <= |text| && TokensFrom(a, text[..e], i) == ts[..n]
    decreases |text| - i
  {
    var ts := TokensFrom(a, text, i);
    if a.isWord(text[i]) {
      var end := WordEnd(a, text, i + 1);
      assert ts == [ts[0]] + TokensFrom(a, text, end);
      if n > 1 {
        TokensCut(a, text, end, n - 1);
      }
      var e := ts[n - 1].end;
      WordEndCut(a, text, i + 1, e);
      assert text[..e][i..end] == text[i..end];
    } else {
      TokensCut(a, text, i + 1, n);
    }
  }

  lemma {:induction false} WordEndsInWord(a: Alphabet, text: string, i: nat)
    requires 0 < i <= |text| && a.isWord(text[i - 1])
    ensures a.isWord(text[WordEnd(a, text, i) - 1])
    decreases |text| - i
  {
    if i < |text| && a.isWord(text[i]) {
      WordEndsInWord(a, text, i + 1);
    } else if i + 1 < |text| && IsApostrophe(text[i]) && a.isWord(text[i + 1]) {
      WordEndsInWord(a, text, i + 2);
    }
  }

  /** Every token begins and ends with a word character. */
  lemma {:induction false} TokenEdges(a: Alphabet, text: string, i: nat, y: nat)
    requires i <= |text| && y < |TokensFrom(a, text, i)|
    ensures var t := TokensFrom(a, text, i)[y];
            t.start < t.end <= |text| && a.isWord(text[t.start]) && a.isWord(text[t.end - 1])
    decreases |text| - i
  {
    if a.isWord(text[i]) {
      WordEndsInWord(a, text, i + 1);
      if y > 0 {
        TokenEdges(a, text, WordEnd(a, text, i + 1), y - 1);
      }
    } else {
      TokenEdges(a, text, i + 1, y);
    }
  }

  /** The stretch of text that holds the tokens `[y, y + k)` holds their words and no others. */
  lemma StretchTokens(a: Alphabet, text: string, y: nat, k: nat)
    requires k >= 1 && y + k <= |Tokenize(a, text)|
    ensures var ts := Tokenize(a, text);
            && ts[y].start < ts[y + k - 1].end <= |text|
            && Norms(Tokenize(a, text[ts[y].start..ts[y + k - 1].end])) == Norms(ts)[y..y + k]
  {
    var ts := Tokenize(a, text);
    var start := ts[y].start;
    TokenizeTiles(a, text);
    assert ts[y] in ts && ts[y + k - 1] in ts;
    TokensFromToken(a, text, 0, y);
    TokensCut(a, text, start, k);
    var e := ts[y..][k - 1].end;
    var field := text[start..e];
    assert text[..e] == text[..start] + field;
    TokensShift(a, text[..start], field, 0);
    assert Norms(ts[y..][..k]) == Norms(ts)[y..y + k];
  }
}
