/** Undoing hard line wrapping in plain text without losing a word. */
module Unwrap {
  import opened Sorting

  predicate EndsSentence(c: char) {
    c == '.' || c == '!' || c == '?' || c == ':' || c == ';'
  }

  predicate ContinuesLine(c: char) {
    'a' <= c <= 'z' || '0' <= c <= '9' || c == '('
  }

  /** A word broken across lines with a hyphen, from `i` on. */
  predicate BrokenWord(isWord: char -> bool, t: string, i: nat) {
    i + 3 < |t| && isWord(t[i]) && t[i + 1] == '-' && t[i + 2] == '\n' && isWord(t[i + 3])
  }

  /** Rejoin broken words, left to right; a rejoined letter does not take part again. */
  function Rejoin(isWord: char -> bool, t: string, i: nat): string
    decreases |t| - i
  {
    if i >= |t| then ""
    else if BrokenWord(isWord, t, i) then [t[i], t[i + 3]] + Rejoin(isWord, t, i + 4)
    else [t[i]] + Rejoin(isWord, t, i + 1)
  }

  /** The newline at `x` only wraps: what precedes does not finish a sentence and the next
      line goes on in lower case. */
  predicate OnlyWraps(t: string, x: nat) {
    && x + 1 < |t| && t[x] == '\n' && ContinuesLine(t[x + 1])
    && !(x > 0 && EndsSentence(t[x - 1]))
  }

  function JoinLines(t: string): (r: string)
    ensures |r| == |t|
    ensures forall x :: 0 <= x < |t| ==> r[x] == if OnlyWraps(t, x) then ' ' else t[x]
  {
    seq(|t|, x requires 0 <= x < |t| => if OnlyWraps(t, x) then ' ' else t[x])
  }

  function Unwrapped(isWord: char -> bool, t: string): string {
    JoinLines(Rejoin(isWord, t, 0))
  }

  /** What any character database grants. */
  ghost predicate BreaksAreNotWords(isWord: char -> bool) {
    !isWord('-') && !isWord('\n') && !isWord(' ')
  }

  /** The word characters of `t[i..]`, in order. */
  function WordChars(isWord: char -> bool, t: string, i: nat): string
    decreases |t| - i
  {
    if i >= |t| then "" else (if isWord(t[i]) then [t[i]] else "") + WordChars(isWord, t, i + 1)
  }

  lemma {:induction false} WordCharsShift(isWord: char -> bool, p: string, t: string, i: nat)
    ensures WordChars(isWord, p + t, |p| + i) == WordChars(isWord, t, i)
    decreases |t| - i
  {
    if i < |t| {
      WordCharsShift(isWord, p, t, i + 1);
    }
  }

  lemma WordCharsOfBroken(isWord: char -> bool, t: string, i: nat)
    requires BreaksAreNotWords(isWord) && BrokenWord(isWord, t, i)
    ensures WordChars(isWord, t, i) == [t[i]] + ([t[i + 3]] + WordChars(isWord, t, i + 4))
  {
    assert WordChars(isWord, t, i + 3) == [t[i + 3]] + WordChars(isWord, t, i + 4);
    assert WordChars(isWord, t, i + 2) == "" + WordChars(isWord, t, i + 3);
    assert WordChars(isWord, t, i + 1) == "" + WordChars(isWord, t, i + 2);
  }

  lemma WordCharsCons(isWord: char -> bool, c: char, rest: string)
    ensures WordChars(isWord, [c] + rest, 0) == (if isWord(c) then [c] else "") + WordChars(isWord, rest, 0)
  {
    WordCharsShift(isWord, [c], rest, 0);
  }

  lemma RejoinOfBroken(isWord: char -> bool, t: string, i: nat)
    requires BrokenWord(isWord, t, i)
    ensures Rejoin(isWord, t, i) == [t[i]] + ([t[i + 3]] + Rejoin(isWord, t, i + 4))
  {}

  lemma RejoinOfOther(isWord: char -> bool, t: string, i: nat)
    requires i < |t| && !BrokenWord(isWord, t, i)
    ensures Rejoin(isWord, t, i) == [t[i]] + Rejoin(isWord, t, i + 1)
  {}

  lemma WordCharsStep(isWord: char -> bool, t: string, i: nat)
    ensures i >= |t| ==> WordChars(isWord, t, i) == "" && Rejoin(isWord, t, i) == "" && WordChars(isWord, "", 0) == ""
    ensures i < |t| ==> WordChars(isWord, t, i) == (if isWord(t[i]) then [t[i]] else "") + WordChars(isWord, t, i + 1)
  {}

  lemma {:induction false} RejoinKeepsWords(isWord: char -> bool, t: string, i: nat)
    requires BreaksAreNotWords(isWord)
    ensures WordChars(isWord, Rejoin(isWord, t, i), 0) == WordChars(isWord, t, i)
    decreases |t| - i
  {
    hide WordChars, Rejoin;
    WordCharsStep(isWord, t, i);
    if i < |t| {
      if BrokenWord(isWord, t, i) {
        var rest := Rejoin(isWord, t, i + 4);
        RejoinKeepsWords(isWord, t, i + 4);
        RejoinOfBroken(isWord, t, i);
        WordCharsOfBroken(isWord, t, i);
        WordCharsCons(isWord, t[i + 3], rest);
        WordCharsCons(isWord, t[i], [t[i + 3]] + rest);
      } else {
        RejoinKeepsWords(isWord, t, i + 1);
        RejoinOfOther(isWord, t, i);
        WordCharsCons(isWord, t[i], Rejoin(isWord, t, i + 1));
      }
    }
  }

  lemma {:induction false} JoinKeepsWords(isWord: char -> bool, t: string, i: nat)
    requires BreaksAreNotWords(isWord)
    ensures WordChars(isWord, JoinLines(t), i) == WordChars(isWord, t, i)
    decreases |t| - i
  {
    hide WordChars;
    WordCharsStep(isWord, t, i);
    WordCharsStep(isWord, JoinLines(t), i);
    if i < |t| {
      JoinKeepsWords(isWord, t, i + 1);
    }
  }

  /** Unwrapping neither drops, adds nor reorders a word character. */
  lemma UnwrapKeepsWords(isWord: char -> bool, t: string)
    requires BreaksAreNotWords(isWord)
    ensures WordChars(isWord, Unwrapped(isWord, t), 0) == WordChars(isWord, t, 0)
  {
    RejoinKeepsWords(isWord, t, 0);
    JoinKeepsWords(isWord, Rejoin(isWord, t, 0), 0);
  }

  /** Afterwards no line break is left that only wraps. */
  lemma NoWrapIsLeft(isWord: char -> bool, t: string, x: nat)
    ensures !OnlyWraps(Unwrapped(isWord, t), x)
  {
    var s := Rejoin(isWord, t, 0);
    var r := JoinLines(s);
    if x + 1 < |r| && r[x] == '\n' && ContinuesLine(r[x + 1]) {
      assert s[x] == '\n' && s[x + 1] == r[x + 1];
      assert x > 0 && EndsSentence(s[x - 1]);
      assert r[x - 1] == s[x - 1];
    }
  }

  // ---------------------------------------------------------------- what one pass leaves

  /** Whether the pass from `i` on rejoins the broken word at `x`: it does unless it has just
      rejoined the one three characters before, whose last letter is this one's first. */
  predicate Rejoins(isWord: char -> bool, t: string, i: nat, x: nat) {
    && i <= x && x + 3 < |t|
    && isWord(t[x]) && t[x + 1] == '-' && t[x + 2] == '\n' && isWord(t[x + 3])
    && !(i + 3 <= x && Rejoins(isWord, t, i, x - 3))
  }

  /** What the pass does behind `i` it does as if it began there. */
  lemma {:induction false} RejoinsFrom(isWord: char -> bool, t: string, i: nat, x: nat)
    requires BreaksAreNotWords(isWord)
    ensures var next := if BrokenWord(isWord, t, i) then i + 4 else i + 1;
            Rejoins(isWord, t, i, x) <==> (x == i && BrokenWord(isWord, t, i)) || Rejoins(isWord, t, next, x)
  {
    if x >= i + 3 {
      RejoinsFrom(isWord, t, i, x - 3);
    }
  }

  // ---------------------------------------------------------------- exactly what one pass writes

  /** The hyphen or the newline of a word rejoined from `i` on. */
  ghost predicate Dropped(isWord: char -> bool, t: string, i: nat, j: nat) {
    (j >= 1 && Rejoins(isWord, t, i, j - 1)) || (j >= 2 && Rejoins(isWord, t, i, j - 2))
  }

  lemma DroppedFrom(isWord: char -> bool, t: string, i: nat, j: nat)
    requires BreaksAreNotWords(isWord) && i < |t|
    ensures var broken := BrokenWord(isWord, t, i);
            Dropped(isWord, t, i, j) <==>
              if broken then j == i + 1 || j == i + 2 || Dropped(isWord, t, i + 4, j) else Dropped(isWord, t, i + 1, j)
  {
    if j >= 1 {
      RejoinsFrom(isWord, t, i, j - 1);
    }
    if j >= 2 {
      RejoinsFrom(isWord, t, i, j - 2);
    }
  }

  /** From `i` on the characters at `at` are kept, all but the dropped ones. */
  ghost predicate KeptFrom(isWord: char -> bool, t: string, i: nat, at: seq<nat>) {
    Increasing(at) && forall j: nat :: j in at <==> i <= j < |t| && !Dropped(isWord, t, i, j)
  }

  lemma KeptCons(isWord: char -> bool, t: string, i: nat, p: seq<nat>, rest: seq<nat>)
    requires BreaksAreNotWords(isWord) && i < |t|
    requires p == if BrokenWord(isWord, t, i) then [i, i + 3] else [i]
    requires KeptFrom(isWord, t, p[|p| - 1] + 1, rest)
    ensures KeptFrom(isWord, t, i, p + rest)
  {
    hide Dropped, BrokenWord;
    var next := p[|p| - 1] + 1;
    BrokenFits(isWord, t, i);
    forall j: nat ensures j in p + rest <==> i <= j < |t| && !Dropped(isWord, t, i, j) {
      DroppedFrom(isWord, t, i, j);
      NotDroppedBefore(isWord, t, next, j);
    }
    forall k | 0 <= k < |rest| ensures next <= rest[k] {
      assert rest[k] in rest;
    }
  }

  lemma BrokenFits(isWord: char -> bool, t: string, i: nat)
    ensures BrokenWord(isWord, t, i) ==> i + 3 < |t|
  {}

  lemma NotDroppedBefore(isWord: char -> bool, t: string, i: nat, j: nat)
    ensures j <= i ==> !Dropped(isWord, t, i, j)
  {}

  lemma {:induction false} RejoinAt(isWord: char -> bool, t: string, i: nat) returns (at: seq<nat>)
    requires BreaksAreNotWords(isWord)
    ensures KeptFrom(isWord, t, i, at)
    ensures |Rejoin(isWord, t, i)| == |at|
    ensures forall k :: 0 <= k < |at| ==> at[k] < |t| && Rejoin(isWord, t, i)[k] == t[at[k]]
    decreases |t| - i
  {
    at := [];
    if i < |t| {
      var p: seq<nat> := if BrokenWord(isWord, t, i) then [i, i + 3] else [i];
      var rest := RejoinAt(isWord, t, p[|p| - 1] + 1);
      KeptCons(isWord, t, i, p, rest);
      at := p + rest;
    }
  }

  /** The break at place `k` of what is kept only wraps. */
  ghost predicate Wraps(t: string, at: seq<nat>, k: nat)
    requires forall x :: 0 <= x < |at| ==> at[x] < |t|
  {
    && k + 1 < |at| && t[at[k]] == '\n'
    && (var c := t[at[k + 1]]; 'a' <= c <= 'z' || '0' <= c <= '9' || c == '(')
    && (k > 0 ==> t[at[k - 1]] !in ['.', '!', '?', ':', ';'])
  }

  /** The text written, character by character: what is kept of the original in its order, with a
      space for every break between words of one sentence. */
  lemma UnwrapMeaning(isWord: char -> bool, t: string) returns (at: seq<nat>)
    requires BreaksAreNotWords(isWord)
    ensures KeptFrom(isWord, t, 0, at)
    ensures |Unwrapped(isWord, t)| == |at| && forall k :: 0 <= k < |at| ==> at[k] < |t|
    ensures forall k: nat :: k < |at| ==> Unwrapped(isWord, t)[k] == if Wraps(t, at, k) then ' ' else t[at[k]]
  {
    at := RejoinAt(isWord, t, 0);
    hide Rejoin, KeptFrom;
  }

  // ---------------------------------------------------------------- what is left broken

  lemma RejoinHead(isWord: char -> bool, t: string, i: nat)
    ensures Rejoin(isWord, t, i) == [] <==> i >= |t|
    ensures i < |t| ==> Rejoin(isWord, t, i)[0] == t[i]
  {}

  /** `- newline letter` at the head of what is rejoined from `i` on is there in the text. */
  lemma BreakAtHead(isWord: char -> bool, t: string, i: nat)
    requires BreaksAreNotWords(isWord)
    ensures var r := Rejoin(isWord, t, i);
            (|r| > 2 && r[0] == '-' && r[1] == '\n' && isWord(r[2])) <==>
            (i + 2 < |t| && t[i] == '-' && t[i + 1] == '\n' && isWord(t[i + 2]))
    ensures var r := Rejoin(isWord, t, i);
            i + 2 < |t| && t[i] == '-' && t[i + 1] == '\n' ==> |r| > 2 && r[2] == t[i + 2]
  {
    RejoinHead(isWord, t, i);
    RejoinHead(isWord, t, i + 1);
    RejoinHead(isWord, t, i + 2);
  }

  /** Broken words whose next line satisfies `q`. */
  ghost predicate LeavesBroken(isWord: char -> bool, s: string, q: char -> bool) {
    exists y: nat :: BrokenWord(isWord, s, y) && q(s[y + 3])
  }

  /** A broken word that the pass from `i` on skips because it has just taken its first letter. */
  ghost predicate Skips(isWord: char -> bool, t: string, i: nat, q: char -> bool) {
    exists x: nat :: Rejoins(isWord, t, i, x) && BrokenWord(isWord, t, x + 3) && q(t[x + 6])
  }

  lemma LeavesBrokenCons(isWord: char -> bool, p: string, r: string, q: char -> bool)
    requires BreaksAreNotWords(isWord)
    requires |p| == 1 || (|p| == 2 && isWord(p[1]))
    ensures LeavesBroken(isWord, p + r, q) <==>
            LeavesBroken(isWord, r, q) || (BrokenWord(isWord, p + r, |p| - 1) && q((p + r)[|p| + 2]))
  {
    var s := p + r;
    if LeavesBroken(isWord, r, q) {
      var y: nat :| BrokenWord(isWord, r, y) && q(r[y + 3]);
      assert BrokenWord(isWord, s, |p| + y) && s[|p| + y + 3] == r[y + 3];
    }
    if LeavesBroken(isWord, s, q) {
      var y: nat :| BrokenWord(isWord, s, y) && q(s[y + 3]);
      if y >= |p| {
        assert BrokenWord(isWord, r, y - |p|) && r[y - |p| + 3] == s[y + 3];
      } else {
        assert y == |p| - 1;
      }
    }
  }

  /** The pass leaves a broken word exactly where it skips one. */
  lemma {:induction false} LeftIsSkipped(isWord: char -> bool, t: string, i: nat, q: char -> bool)
    requires BreaksAreNotWords(isWord)
    ensures LeavesBroken(isWord, Rejoin(isWord, t, i), q) <==> Skips(isWord, t, i, q)
    decreases |t| - i
  {
    if i < |t| {
      hide Rejoins, Skips, LeavesBroken;
      var next := if BrokenWord(isWord, t, i) then i + 4 else i + 1;
      var p := if BrokenWord(isWord, t, i) then [t[i], t[i + 3]] else [t[i]];
      LeftIsSkipped(isWord, t, next, q);
      LeavesBrokenCons(isWord, p, Rejoin(isWord, t, next), q);
      BreakAtHead(isWord, t, next);
      SkipsFrom(isWord, t, i, q);
    }
  }

  lemma SkipsFrom(isWord: char -> bool, t: string, i: nat, q: char -> bool)
    requires BreaksAreNotWords(isWord)
    ensures var next := if BrokenWord(isWord, t, i) then i + 4 else i + 1;
            Skips(isWord, t, i, q) <==>
            Skips(isWord, t, next, q) || (BrokenWord(isWord, t, i) && BrokenWord(isWord, t, i + 3) && q(t[i + 6]))
  {
    hide Rejoins;
    var next := if BrokenWord(isWord, t, i) then i + 4 else i + 1;
    if Skips(isWord, t, i, q) {
      var x: nat :| Rejoins(isWord, t, i, x) && BrokenWord(isWord, t, x + 3) && q(t[x + 6]);
      RejoinsFrom(isWord, t, i, x);
    }
    if Skips(isWord, t, next, q) {
      var x: nat :| Rejoins(isWord, t, next, x) && BrokenWord(isWord, t, x + 3) && q(t[x + 6]);
      RejoinsFrom(isWord, t, i, x);
    }
    RejoinsFrom(isWord, t, i, i);
  }

  /** Rejoining leaves a broken word exactly when two broken words share a letter. */
  lemma RejoinLeavesShared(isWord: char -> bool, t: string)
    requires BreaksAreNotWords(isWord)
    ensures (exists y: nat :: BrokenWord(isWord, Rejoin(isWord, t, 0), y))
       <==> (exists x: nat :: BrokenWord(isWord, t, x) && BrokenWord(isWord, t, x + 3))
  {
    var any := (c: char) => true;
    LeftIsSkipped(isWord, t, 0, any);
    if y: nat :| BrokenWord(isWord, Rejoin(isWord, t, 0), y) {
      assert any(Rejoin(isWord, t, 0)[y + 3]);
      assert LeavesBroken(isWord, Rejoin(isWord, t, 0), any);
    }
    if x: nat :| BrokenWord(isWord, t, x) && BrokenWord(isWord, t, x + 3) {
      var first := if Rejoins(isWord, t, 0, x) then x else x - 3;
      assert Rejoins(isWord, t, 0, first) && any(t[first + 6]);
      assert Skips(isWord, t, 0, any);
    }
    if Skips(isWord, t, 0, any) {
      SkippedIsShared(isWord, t, 0, any);
    }
  }

  lemma SkippedIsShared(isWord: char -> bool, t: string, i: nat, q: char -> bool)
    requires Skips(isWord, t, i, q)
    ensures exists x: nat :: BrokenWord(isWord, t, x) && BrokenWord(isWord, t, x + 3)
  {
    var x: nat :| Rejoins(isWord, t, i, x) && BrokenWord(isWord, t, x + 3) && q(t[x + 6]);
    assert BrokenWord(isWord, t, x);
  }

  lemma {:induction false} NothingToRejoin(isWord: char -> bool, t: string, i: nat)
    requires i <= |t|
    requires forall y: nat :: !BrokenWord(isWord, t, y)
    ensures Rejoin(isWord, t, i) == t[i..]
    decreases |t| - i
  {
    if i < |t| {
      NothingToRejoin(isWord, t, i + 1);
    }
  }

  lemma {:induction false} RejoinLength(isWord: char -> bool, t: string, i: nat)
    requires i <= |t|
    ensures |Rejoin(isWord, t, i)| <= |t| - i
    decreases |t| - i
  {
    if i < |t| {
      if BrokenWord(isWord, t, i) {
        RejoinLength(isWord, t, i + 4);
      } else {
        RejoinLength(isWord, t, i + 1);
      }
    }
  }

  lemma {:induction false} RejoinShortens(isWord: char -> bool, t: string, i: nat, y: nat)
    requires i <= y && BrokenWord(isWord, t, y)
    ensures |Rejoin(isWord, t, i)| < |t| - i
    decreases |t| - i
  {
    if BrokenWord(isWord, t, i) {
      RejoinLength(isWord, t, i + 4);
    } else {
      RejoinShortens(isWord, t, i + 1, y);
    }
  }

  /** Joining lines keeps a broken word exactly when its next line does not look wrapped. */
  lemma JoinKeepsBroken(isWord: char -> bool, s: string)
    requires BreaksAreNotWords(isWord)
    ensures forall y: nat :: BrokenWord(isWord, JoinLines(s), y) <==> BrokenWord(isWord, s, y) && !ContinuesLine(s[y + 3])
  {}

  predicate StartsAfresh(c: char) {
    !ContinuesLine(c)
  }

  /** A text without line breaks that only wrap is left alone exactly when no word is broken. */
  lemma UnwrappedIsFixed(isWord: char -> bool, r: string)
    requires forall x: nat :: !OnlyWraps(r, x)
    ensures Unwrapped(isWord, r) == r <==> forall y: nat :: !BrokenWord(isWord, r, y)
  {
    if y: nat :| BrokenWord(isWord, r, y) {
      RejoinShortens(isWord, r, 0, y);
      assert |Unwrapped(isWord, r)| < |r|;
    } else {
      NothingToRejoin(isWord, r, 0);
      assert JoinLines(r) == r;
    }
  }

  /** A second pass changes nothing exactly when no broken word is skipped whose next line
      starts with something other than a lower-case letter, a digit or a parenthesis: such a
      break does not look like wrapping, so joining lines leaves it to the second pass. */
  lemma UnwrapTwice(isWord: char -> bool, t: string)
    requires BreaksAreNotWords(isWord)
    ensures Unwrapped(isWord, Unwrapped(isWord, t)) == Unwrapped(isWord, t) <==> !Skips(isWord, t, 0, StartsAfresh)
  {
    hide Skips;
    var s, r := Rejoin(isWord, t, 0), Unwrapped(isWord, t);
    LeftIsSkipped(isWord, t, 0, StartsAfresh);
    JoinKeepsBroken(isWord, s);
    forall x: nat ensures !OnlyWraps(r, x) {
      NoWrapIsLeft(isWord, t, x);
    }
    UnwrappedIsFixed(isWord, r);
    hide BrokenWord;
    assert forall y: nat :: BrokenWord(isWord, r, y) <==> BrokenWord(isWord, s, y) && StartsAfresh(s[y + 3]);
  }

  /** One pass is enough when no two broken words share a letter. */
  lemma OnePassIsEnough(isWord: char -> bool, t: string)
    requires BreaksAreNotWords(isWord)
    requires forall x: nat :: !(BrokenWord(isWord, t, x) && BrokenWord(isWord, t, x + 3))
    ensures forall y: nat :: !BrokenWord(isWord, Rejoin(isWord, t, 0), y)
    ensures Unwrapped(isWord, Unwrapped(isWord, t)) == Unwrapped(isWord, t)
  {
    RejoinLeavesShared(isWord, t);
    UnwrapTwice(isWord, t);
    if Skips(isWord, t, 0, StartsAfresh) {
      SkippedIsShared(isWord, t, 0, StartsAfresh);
    }
  }

  /** Broken words can be left: a single letter between two broken hyphens is rejoined to one
      side only, and a second pass would rejoin the other. */
  lemma SecondPassCanRejoinMore()
    ensures var isWord := (c: char) => 'A' <= c <= 'Z';
            && Unwrapped(isWord, "A-\nB-\nC") == "AB-\nC"
            && Unwrapped(isWord, "AB-\nC") == "ABC"
  {
    var isWord := (c: char) => 'A' <= c <= 'Z';
    var t, u := "A-\nB-\nC", "AB-\nC";
    assert Rejoin(isWord, t, 4) == "-\nC" by {
      assert Rejoin(isWord, t, 6) == "C";
      assert Rejoin(isWord, t, 5) == "\nC";
    }
    assert Rejoin(isWord, t, 0) == u;
    assert Rejoin(isWord, u, 1) == "BC";
    assert Rejoin(isWord, u, 0) == "ABC";
    assert JoinLines(u) == u;
    assert JoinLines("ABC") == "ABC";
  }
}
