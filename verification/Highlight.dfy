/** The highlighted document view: overlapping spans are resolved into disjoint segments and
    the text is cut into marked and unmarked pieces. Escaping for the page is left out. */
module Highlight {
  import opened Matches
  import opened Sorting

  /** What a mark carries. */
  datatype Tag = Tag(id: int, kind: Kind, review: bool)

  datatype Span = Span(start: int, end: int, tag: Tag)

  datatype Piece = Plain(text: string) | Marked(text: string, tag: Tag)

  /** Spans worth drawing. */
  function Drawable(spans: seq<Span>): (r: seq<Span>)
    ensures forall s :: s in r <==> s in spans && s.start < s.end
  {
    if spans == [] then []
    else
      assert spans == [spans[0]] + spans[1..];
      (if spans[0].start < spans[0].end then [spans[0]] else []) + Drawable(spans[1..])
  }

  /** By start; at the same start verbatim first. */
  predicate NotAfter(a: Span, b: Span) {
    a.start < b.start || (a.start == b.start && (b.tag.kind == Verbatim ==> a.tag.kind == Verbatim))
  }

  function InOrder(spans: seq<Span>): seq<Span> {
    Sort(Drawable(spans), NotAfter)
  }

  /** The result of sorting by start, verbatim before other kinds at the same start. */
  ghost predicate InDisplayOrder(spans: seq<Span>) {
    forall i, j :: 0 <= i < j < |spans| ==>
      && spans[i].start <= spans[j].start
      && (spans[i].start == spans[j].start && spans[j].tag.kind == Verbatim ==> spans[i].tag.kind == Verbatim)
  }

  ghost predicate ByStart(spans: seq<Span>) {
    forall i, j :: 0 <= i < j < |spans| ==> spans[i].start <= spans[j].start
  }

  ghost predicate NonEmpty(spans: seq<Span>) {
    forall i :: 0 <= i < |spans| ==> spans[i].start < spans[i].end
  }

  // ---------------------------------------------------------------- resolving overlaps

  /** The segments kept from `spans` when everything before `cursor` is taken. */
  function Kept(spans: seq<Span>, cursor: int): seq<Span> {
    if spans == [] then []
    else
      var s := spans[0];
      var st := Max(s.start, cursor);
      if st >= s.end then Kept(spans[1..], cursor)
      else [Span(st, s.end, s.tag)] + Kept(spans[1..], s.end)
  }

  method Resolve(spans: seq<Span>) returns (kept: seq<Span>)
    ensures kept == Kept(spans, 0)
  {
    kept := [];
    var cursor := 0;
    for n := 0 to |spans|
      invariant kept + Kept(spans[n..], cursor) == Kept(spans, 0)
    {
      var s := spans[n];
      assert spans[n..][1..] == spans[n + 1..];
      var st := Max(s.start, cursor);
      if st < s.end {
        kept := kept + [Span(st, s.end, s.tag)];
        cursor := s.end;
      }
    }
  }

  predicate Covers(s: Span, x: int) {
    s.start <= x < s.end
  }

  /** The tag of the first span that covers `x`. */
  function TagAt(spans: seq<Span>, x: int): Option<Tag> {
    if spans == [] then None
    else if Covers(spans[0], x) then Some(spans[0].tag)
    else TagAt(spans[1..], x)
  }

  /** Left to right from `pos`, disjoint and non-empty. */
  ghost predicate Segments(kept: seq<Span>, pos: int) {
    kept == [] || (pos <= kept[0].start < kept[0].end && Segments(kept[1..], kept[0].end))
  }

  lemma {:induction false} KeptAreSegments(spans: seq<Span>, cursor: int)
    ensures Segments(Kept(spans, cursor), cursor)
    decreases |spans|
  {
    if spans != [] {
      var s := spans[0];
      if Max(s.start, cursor) >= s.end {
        KeptAreSegments(spans[1..], cursor);
      } else {
        KeptAreSegments(spans[1..], s.end);
      }
    }
  }

  lemma {:induction false} NothingBefore(spans: seq<Span>, x: int)
    requires forall i :: 0 <= i < |spans| ==> x < spans[i].start
    ensures TagAt(spans, x) == None
  {
    if spans != [] {
      assert forall i :: 0 <= i < |spans[1..]| ==> spans[1..][i] == spans[i + 1];
      NothingBefore(spans[1..], x);
    }
  }

  lemma {:induction false} SegmentsStartAfter(kept: seq<Span>, pos: int, x: int)
    requires Segments(kept, pos) && x < pos
    ensures TagAt(kept, x) == None
  {
    if kept != [] {
      SegmentsStartAfter(kept[1..], kept[0].end, x);
    }
  }

  /** Resolution preserves everything: a position is kept exactly when some span covers it,
      and carries the tag of the first such span in display order. */
  lemma {:induction false} KeptTags(spans: seq<Span>, cursor: int, x: int)
    requires ByStart(spans) && NonEmpty(spans) && cursor <= x
    ensures TagAt(Kept(spans, cursor), x) == TagAt(spans, x)
    decreases |spans|
  {
    if spans != [] {
      var s, rest := spans[0], spans[1..];
      assert forall i :: 0 <= i < |rest| ==> rest[i] == spans[i + 1];
      if Max(s.start, cursor) >= s.end {
        KeptTags(rest, cursor, x);
      } else if x < s.start {
        NothingBefore(rest, x);
        KeptAreSegments(rest, s.end);
        SegmentsStartAfter(Kept(rest, s.end), s.end, x);
      } else if s.end <= x {
        KeptTags(rest, s.end, x);
      }
    }
  }

  /** At a tie a verbatim span wins: where it and another span start together, its mark shows. */
  lemma {:induction false} VerbatimWinsTies(spans: seq<Span>, i: nat, x: int)
    requires InDisplayOrder(spans) && NonEmpty(spans)
    requires i < |spans| && spans[i].tag.kind == Verbatim && spans[i].start == x
    requires forall j :: 0 <= j < |spans| && Covers(spans[j], x) ==> spans[j].start == x
    ensures TagAt(spans, x).Some? && TagAt(spans, x).value.kind == Verbatim
    decreases |spans|
  {
    if !Covers(spans[0], x) {
      assert forall k :: 0 <= k < |spans[1..]| ==> spans[1..][k] == spans[k + 1];
      VerbatimWinsTies(spans[1..], i - 1, x);
    } else {
      assert i > 0 ==> spans[0].start == spans[i].start;
    }
  }

  // ---------------------------------------------------------------- cutting the text

  /** A slice with non-negative bounds, cut back to the text. */
  function Cut(text: string, a: int, b: int): string {
    Slice(text, Max(a, 0), Max(b, 0))
  }

  function Pieces(text: string, kept: seq<Span>, pos: int): seq<Piece> {
    if kept == [] then [Plain(Cut(text, pos, |text|))]
    else
      var s := kept[0];
      [Plain(Cut(text, pos, s.start)), Marked(Cut(text, s.start, s.end), s.tag)] + Pieces(text, kept[1..], s.end)
  }

  method BuildHighlight(text: string, spans: seq<Span>) returns (html: seq<Piece>)
    ensures html == Pieces(text, Kept(spans, 0), 0)
  {
    var kept := Resolve(spans);
    html := [];
    var pos := 0;
    for n := 0 to |kept|
      invariant html + Pieces(text, kept[n..], pos) == Pieces(text, kept, 0)
    {
      var s := kept[n];
      assert kept[n..][1..] == kept[n + 1..];
      html := html + [Plain(Cut(text, pos, s.start))] + [Marked(Cut(text, s.start, s.end), s.tag)];
      pos := s.end;
    }
    html := html + [Plain(Cut(text, pos, |text|))];
  }

  type Annotated = seq<(char, Option<Tag>)>

  function Tagged(text: string, tag: Option<Tag>): (r: Annotated)
    ensures |r| == |text|
    ensures forall i :: 0 <= i < |text| ==> r[i] == (text[i], tag)
  {
    seq(|text|, i requires 0 <= i < |text| => (text[i], tag))
  }

  /** Every character with the mark it stands in. */
  function Annotations(pieces: seq<Piece>): Annotated {
    if pieces == [] then []
    else Tagged(pieces[0].text, if pieces[0].Plain? then None else Some(pieces[0].tag)) + Annotations(pieces[1..])
  }

  function Clamp(text: string, x: nat): nat {
    if x < |text| then x else |text|
  }

  /** The text of `[from, to)`, each character with the tag of the first span covering it. */
  function Expected(text: string, spans: seq<Span>, from: nat, to: nat): (r: Annotated)
    requires from <= to
    ensures |r| == Clamp(text, to) - Clamp(text, from)
    ensures forall i :: 0 <= i < |r| ==> r[i] == (text[from + i], TagAt(spans, from + i))
  {
    var n := Clamp(text, to) - Clamp(text, from);
    seq(n, i requires 0 <= i < n => (text[from + i], TagAt(spans, from + i)))
  }

  lemma ExpectedSplits(text: string, spans: seq<Span>, from: nat, mid: nat, to: nat)
    requires from <= mid <= to
    ensures Expected(text, spans, from, to) == Expected(text, spans, from, mid) + Expected(text, spans, mid, to)
  {
    hide TagAt;
  }

  /** A stretch with one tag throughout. */
  lemma ExpectedUniform(text: string, spans: seq<Span>, from: nat, to: nat, tag: Option<Tag>)
    requires from <= to
    requires forall x :: from <= x < to ==> TagAt(spans, x) == tag
    ensures Expected(text, spans, from, to) == Tagged(Cut(text, from, to), tag)
  {
    hide TagAt;
  }

  lemma ExpectedSameTags(text: string, spans: seq<Span>, others: seq<Span>, from: nat, to: nat)
    requires from <= to
    requires forall x :: from <= x < to ==> TagAt(spans, x) == TagAt(others, x)
    ensures Expected(text, spans, from, to) == Expected(text, others, from, to)
  {
    hide TagAt;
  }

  lemma AnnotatePair(plain: Piece, marked: Piece, rest: seq<Piece>)
    requires plain.Plain? && marked.Marked?
    ensures Annotations([plain, marked] + rest)
         == Tagged(plain.text, None) + Tagged(marked.text, Some(marked.tag)) + Annotations(rest)
  {
    var pieces := [plain, marked] + rest;
    assert pieces[1..] == [marked] + rest;
    assert pieces[1..][1..] == rest;
  }

  /** Cutting the text at disjoint segments loses nothing and marks each segment with its tag. */
  lemma {:induction false} PiecesAnnotate(text: string, kept: seq<Span>, pos: nat, to: nat)
    requires Segments(kept, pos) && |text| <= to && pos <= to
    requires forall i :: 0 <= i < |kept| ==> kept[i].end <= to
    ensures Annotations(Pieces(text, kept, pos)) == Expected(text, kept, pos, to)
    decreases |kept|
  {
    hide TagAt, Slice;
    if kept == [] {
      NoSpans(pos, to);
      ExpectedUniform(text, kept, pos, to, None);
      CutToEnd(text, pos, to);
      var only := Plain(Cut(text, pos, |text|));
      assert Annotations([only][1..]) == [];
    } else {
      var s, rest := kept[0], kept[1..];
      FirstSegment(kept, pos, to);
      PiecesAnnotate(text, rest, s.end, to);
      AnnotatePair(Plain(Cut(text, pos, s.start)), Marked(Cut(text, s.start, s.end), s.tag), Pieces(text, rest, s.end));
      ExpectedSplits(text, kept, pos, s.start, to);
      ExpectedSplits(text, kept, s.start, s.end, to);
      ExpectedUniform(text, kept, pos, s.start, None);
      ExpectedUniform(text, kept, s.start, s.end, Some(s.tag));
      ExpectedSameTags(text, kept, rest, s.end, to);
    }
  }

  lemma NoSpans(from: nat, to: nat)
    ensures forall x :: from <= x < to ==> TagAt([], x) == None
  {}

  lemma CutToEnd(text: string, pos: nat, to: nat)
    requires |text| <= to
    ensures Cut(text, pos, |text|) == Cut(text, pos, to)
  {}

  /** Tags before, inside and after the first segment. */
  lemma FirstSegment(kept: seq<Span>, pos: nat, to: nat)
    requires kept != [] && Segments(kept, pos)
    ensures forall x :: pos <= x < kept[0].start ==> TagAt(kept, x) == None
    ensures forall x :: kept[0].start <= x < kept[0].end ==> TagAt(kept, x) == Some(kept[0].tag)
    ensures forall x :: kept[0].end <= x < to ==> TagAt(kept, x) == TagAt(kept[1..], x)
  {
    forall x | pos <= x < kept[0].start ensures TagAt(kept, x) == None {
      SegmentsStartAfter(kept[1..], kept[0].end, x);
    }
  }

  ghost function FarthestEnd(spans: seq<Span>, least: nat): (r: nat)
    ensures r >= least && forall i :: 0 <= i < |spans| ==> spans[i].end <= r
  {
    if spans == [] then least
    else
      var rest := FarthestEnd(spans[1..], least);
      assert forall i :: 0 < i < |spans| ==> spans[i] == spans[1..][i - 1];
      if spans[0].end > rest then spans[0].end else rest
  }

  /** The whole view, for any spans however out of bounds: the pieces spell the document, and
      each character is marked exactly when a span covers it, with the tag of the first
      covering span in display order. */
  lemma HighlightIsFaithful(text: string, spans: seq<Span>)
    requires ByStart(spans) && NonEmpty(spans)
    ensures Annotations(Pieces(text, Kept(spans, 0), 0)) == Expected(text, spans, 0, |text|)
  {
    var kept := Kept(spans, 0);
    var to := FarthestEnd(kept, |text|);
    KeptAreSegments(spans, 0);
    PiecesAnnotate(text, kept, 0, to);
    forall x | 0 <= x < to ensures TagAt(kept, x) == TagAt(spans, x) {
      KeptTags(spans, 0, x);
    }
    ExpectedSameTags(text, kept, spans, 0, to);
  }

  lemma InOrderIsDisplayOrder(spans: seq<Span>)
    ensures InDisplayOrder(InOrder(spans)) && ByStart(InOrder(spans)) && NonEmpty(InOrder(spans))
    ensures forall s :: s in InOrder(spans) <==> s in spans && s.start < s.end
  {
    SortSorts(Drawable(spans), NotAfter);
    forall s ensures s in InOrder(spans) <==> s in spans && s.start < s.end {
      SortKeepsMembers(Drawable(spans), NotAfter, s);
    }
  }

  lemma {:induction false} TaggedIffCovered(spans: seq<Span>, x: int)
    ensures TagAt(spans, x).Some? <==> exists s :: s in spans && Covers(s, x)
  {
    if spans != [] {
      assert spans == [spans[0]] + spans[1..];
      TaggedIffCovered(spans[1..], x);
    }
  }

  /** From the matches to the page: the marked characters are exactly the union of the
      matches' spans, and the view spells the document. */
  lemma UnionIsMarked(text: string, spans: seq<Span>, x: nat)
    requires x < |text|
    ensures var view := Annotations(Pieces(text, Kept(InOrder(spans), 0), 0));
            && |view| == |text|
            && view[x].0 == text[x]
            && (view[x].1.Some? <==> exists s :: s in spans && Covers(s, x))
  {
    InOrderIsDisplayOrder(spans);
    HighlightIsFaithful(text, InOrder(spans));
    TaggedIffCovered(InOrder(spans), x);
  }
}
