/** One text with paragraph anchors, and finding the paragraph of a position in it. */
module Document {
  import opened Matches

  datatype Block = Block(page: Option<nat>, text: string)

  datatype Paragraph = Paragraph(index: nat, page: Option<nat>, start: nat, end: nat, text: string)

  const SEPARATOR := "\n\n"

  // ---------------------------------------------------------------- assembly

  function TextOf(blocks: seq<Block>): string {
    if blocks == [] then "" else TextOf(blocks[..|blocks| - 1]) + (blocks[|blocks| - 1].text + SEPARATOR)
  }

  function ParagraphsOf(blocks: seq<Block>): (r: seq<Paragraph>)
    ensures |r| == |blocks|
    ensures forall i :: 0 <= i < |r| ==> r[i].index == i && r[i].text == blocks[i].text && r[i].page == blocks[i].page
  {
    if blocks == [] then []
    else
      var n := |blocks| - 1;
      var start := |TextOf(blocks[..n])|;
      ParagraphsOf(blocks[..n]) + [Paragraph(n, blocks[n].page, start, start + |blocks[n].text|, blocks[n].text)]
  }

  /** The running position is the length of what was written so far. */
  method Assemble(blocks: seq<Block>) returns (text: string, paragraphs: seq<Paragraph>)
    ensures text == TextOf(blocks)
    ensures paragraphs == ParagraphsOf(blocks)
  {
    text, paragraphs := "", [];
    var pos := 0;
    for i := 0 to |blocks|
      invariant text == TextOf(blocks[..i])
      invariant pos == |text|
      invariant paragraphs == ParagraphsOf(blocks[..i])
    {
      assert blocks[..i + 1][..i] == blocks[..i];
      var b := blocks[i];
      var start := pos;
      pos := pos + |b.text|;
      paragraphs := paragraphs + [Paragraph(i, b.page, start, pos, b.text)];
      text := text + (b.text + SEPARATOR);
      pos := pos + |SEPARATOR|;
    }
    assert blocks[..|blocks|] == blocks;
  }

  /** Paragraph `p` of `text`: its slice is its own text, and the separator follows. */
  ghost predicate Anchored(text: string, p: Paragraph) {
    && p.start <= p.end
    && p.end + 2 <= |text|
    && text[p.start..p.end] == p.text
    && text[p.end] == '\n' && text[p.end + 1] == '\n'
  }

  /** Paragraphs tile the text, each followed by one separator. */
  ghost predicate Tiled(text: string, ps: seq<Paragraph>) {
    && (forall i :: 0 <= i < |ps| ==> ps[i].index == i && Anchored(text, ps[i]))
    && (forall i :: 0 < i < |ps| ==> ps[i].start == ps[i - 1].end + 2)
    && (if ps == [] then text == "" else ps[0].start == 0 && ps[|ps| - 1].end + 2 == |text|)
  }

  lemma AnchoredExtends(text: string, more: string, p: Paragraph)
    requires Anchored(text, p)
    ensures Anchored(text + more, p)
  {
    assert (text + more)[p.start..p.end] == text[p.start..p.end];
  }

  lemma LastAnchored(text: string, p: Paragraph)
    requires p.start == |text| && p.end == p.start + |p.text|
    ensures Anchored(text + (p.text + SEPARATOR), p)
  {}

  lemma TiledExtends(text: string, ps: seq<Paragraph>, p: Paragraph)
    requires Tiled(text, ps)
    requires p.index == |ps| && p.start == |text| && p.end == p.start + |p.text|
    ensures Tiled(text + (p.text + SEPARATOR), ps + [p])
  {
    var more := p.text + SEPARATOR;
    LastAnchored(text, p);
    forall i | 0 <= i < |ps| ensures Anchored(text + more, ps[i]) {
      AnchoredExtends(text, more, ps[i]);
    }
    hide Anchored;
  }

  /** Each paragraph slice of the assembled text equals its block, and nothing else but
      separators is in the text. */
  lemma {:induction false} AssembledIsTiled(blocks: seq<Block>)
    ensures Tiled(TextOf(blocks), ParagraphsOf(blocks))
  {
    if blocks != [] {
      var n := |blocks| - 1;
      AssembledIsTiled(blocks[..n]);
      hide Tiled;
      TiledExtends(TextOf(blocks[..n]), ParagraphsOf(blocks[..n]), ParagraphsOf(blocks)[n]);
    }
  }

  // ---------------------------------------------------------------- lookup

  /** How many of the ascending `starts` are at most `x`. */
  function BisectRight(starts: seq<nat>, x: nat): (r: nat)
    ensures r <= |starts|
    ensures Climbing(starts) ==> forall i :: 0 <= i < |starts| ==> (i < r <==> starts[i] <= x)
  {
    if starts == [] || starts[|starts| - 1] <= x then |starts| else BisectRight(starts[..|starts| - 1], x)
  }

  ghost predicate Climbing(starts: seq<nat>) {
    forall i, j :: 0 <= i < j < |starts| ==> starts[i] < starts[j]
  }

  function ParagraphStarts(ps: seq<Paragraph>): (r: seq<nat>)
    ensures |r| == |ps|
    ensures forall i :: 0 <= i < |ps| ==> r[i] == ps[i].start
  {
    seq(|ps|, i requires 0 <= i < |ps| => ps[i].start)
  }

  function Located(ps: seq<Paragraph>, m: Match): Match {
    var pi := BisectRight(ParagraphStarts(ps), m.docStart) - 1;
    if 0 <= pi < |ps| then m.(paragraph := Some(ps[pi].index), page := ps[pi].page)
    else m.(paragraph := None, page := None)
  }

  /** The localisation stage, in place. */
  method Localize(ps: seq<Paragraph>, matches: array<Match>)
    modifies matches
    ensures forall i :: 0 <= i < matches.Length ==> matches[i] == Located(ps, old(matches[i]))
  {
    for n := 0 to matches.Length
      invariant forall i :: 0 <= i < n ==> matches[i] == Located(ps, old(matches[i]))
      invariant forall i :: n <= i < matches.Length ==> matches[i] == old(matches[i])
    {
      matches[n] := Located(ps, matches[n]);
    }
  }

  /** Paragraph `i` or the separator after it holds position `x`. */
  ghost predicate Owns(ps: seq<Paragraph>, i: nat, x: nat) {
    i < |ps| && ps[i].start <= x < ps[i].end + 2
  }

  lemma {:induction false} StartsClimb(text: string, ps: seq<Paragraph>, i: nat, j: nat)
    requires Tiled(text, ps) && i < j < |ps|
    ensures ps[i].end + 2 <= ps[j].start
    decreases j - i
  {
    if i + 1 < j {
      StartsClimb(text, ps, i, j - 1);
      assert Anchored(text, ps[j - 1]);
    }
  }

  /** The lookup finds the one paragraph that owns a position of the text. */
  lemma LookupIsUnique(text: string, ps: seq<Paragraph>, m: Match)
    requires Tiled(text, ps) && m.docStart < |text|
    ensures Located(ps, m).paragraph.Some?
    ensures var i := Located(ps, m).paragraph.value;
            && Owns(ps, i, m.docStart)
            && Located(ps, m).page == ps[i].page
            && forall j :: Owns(ps, j, m.docStart) ==> j == i
  {
    var starts := ParagraphStarts(ps);
    forall i, j | 0 <= i < j < |ps| ensures ps[i].end + 2 <= ps[j].start {
      StartsClimb(text, ps, i, j);
    }
    assert Climbing(starts) by {
      forall i, j | 0 <= i < j < |ps| ensures starts[i] < starts[j] {
        assert Anchored(text, ps[i]);
      }
    }
    var r := BisectRight(starts, m.docStart);
    assert starts[0] <= m.docStart;
    assert r > 0;
    assert r < |ps| ==> starts[r] > m.docStart;
  }

  /** A stretch of text without a newline lies inside exactly one paragraph: the separator
      always cuts. The lookup by its first character finds that paragraph. */
  lemma StretchInOneParagraph(text: string, ps: seq<Paragraph>, m: Match)
    requires Tiled(text, ps)
    requires m.docStart < m.docEnd <= |text| && '\n' !in text[m.docStart..m.docEnd]
    ensures Located(ps, m).paragraph.Some?
    ensures var i := Located(ps, m).paragraph.value;
            && i < |ps| && ps[i].start <= m.docStart && m.docEnd <= ps[i].end
            && Located(ps, m).page == ps[i].page
            && forall j :: 0 <= j < |ps| && ps[j].start <= m.docStart < ps[j].end ==> j == i
  {
    LookupIsUnique(text, ps, m);
    var i := Located(ps, m).paragraph.value;
    assert Anchored(text, ps[i]);
    hide Located, Tiled, Anchored;
    SeparatorCuts(text, ps[i], m.docStart, m.docEnd);
    forall j | 0 <= j < |ps| && ps[j].start <= m.docStart < ps[j].end ensures j == i {
      assert Owns(ps, j, m.docStart);
    }
  }

  lemma SeparatorCuts(text: string, p: Paragraph, a: nat, b: nat)
    requires Anchored(text, p)
    requires p.start <= a < p.end + 2 && a < b <= |text| && '\n' !in text[a..b]
    ensures b <= p.end
  {
    forall x | a <= x < b ensures text[x] != '\n' {
      assert text[a..b][x - a] == text[x];
    }
  }

  // ---------------------------------------------------------------- the reference list

  predicate IsListHeading(isHeading: string -> bool, b: Block) {
    |b.text| <= 40 && isHeading(b.text)
  }

  /** Block `i` is the last that is a heading and has at most 40 characters. */
  ghost predicate IsLastHeading(isHeading: string -> bool, blocks: seq<Block>, i: nat) {
    && i < |blocks| && |blocks[i].text| <= 40 && isHeading(blocks[i].text)
    && forall j :: i < j < |blocks| ==> |blocks[j].text| > 40 || !isHeading(blocks[j].text)
  }

  /** Drop everything from the last heading on, if it stands in the final 40% of at least five
      blocks; otherwise drop nothing. The count is of the entries after the heading. */
  method ExcludeReferenceList(isHeading: string -> bool, blocks: seq<Block>) returns (kept: seq<Block>, excluded: nat)
    ensures kept <= blocks
    ensures kept != blocks <==>
      |blocks| >= 5 && exists i: nat :: IsLastHeading(isHeading, blocks, i) && 10 * i >= 6 * |blocks|
    ensures kept != blocks ==> IsLastHeading(isHeading, blocks, |kept|) && |kept| + 1 + excluded == |blocks|
    ensures kept == blocks ==> excluded == 0
  {
    if |blocks| < 5 {
      return blocks, 0;
    }
    var idx: Option<nat> := None;
    for i := 0 to |blocks|
      invariant idx.None? ==> forall j :: 0 <= j < i ==> !IsListHeading(isHeading, blocks[j])
      invariant idx.Some? ==>
        && idx.value < i && IsListHeading(isHeading, blocks[idx.value])
        && forall j :: idx.value < j < i ==> !IsListHeading(isHeading, blocks[j])
    {
      if IsListHeading(isHeading, blocks[i]) {
        idx := Some(i);
      }
    }
    assert idx.Some? ==> IsLastHeading(isHeading, blocks, idx.value);
    if idx.None? || 10 * idx.value < 6 * |blocks| {
      return blocks, 0;
    }
    return blocks[..idx.value], |blocks| - idx.value - 1;
  }
}
