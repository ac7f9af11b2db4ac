/** End to end on one document: sentence units of the assembled text and their paragraphs. */
module Localization {
  import opened Document
  import opened Matches
  import opened Sentences

  /** The unit lies inside paragraph `p` and is that paragraph's own text there. */
  ghost predicate UnitIn(p: Paragraph, u: Unit) {
    && p.start <= u.start < u.end <= p.end
    && u.end - p.start <= |p.text|
    && u.text == p.text[u.start - p.start..u.end - p.start]
  }

  /** Every sentence unit of an assembled document lies inside exactly one paragraph, and the
      lookup by its first character returns that paragraph and its page. */
  lemma UnitInOneParagraph(cs: Charset, blocks: seq<Block>, span: (nat, nat), m: Match)
    requires Sane(cs)
    requires span in SplitFrom(cs, TextOf(blocks), 0, 0)
    requires span.0 <= span.1 <= |TextOf(blocks)|
    requires var u := Strip(cs, TextOf(blocks), span); m.docStart == u.start && m.docEnd == u.end
    ensures var located := Located(ParagraphsOf(blocks), m);
            && located.paragraph.Some? && located.paragraph.value < |blocks|
            && located.page == blocks[located.paragraph.value].page
            && forall j :: 0 <= j < |blocks| ==>
                 (UnitIn(ParagraphsOf(blocks)[j], Strip(cs, TextOf(blocks), span)) <==> j == located.paragraph.value)
  {
    var text, ps, u := TextOf(blocks), ParagraphsOf(blocks), Strip(cs, TextOf(blocks), span);
    UnitShape(cs, text, span);
    AssembledIsTiled(blocks);
    ParagraphHoldsUnit(text, ps, m, u);
  }

  lemma ParagraphHoldsUnit(text: string, ps: seq<Paragraph>, m: Match, u: Unit)
    requires Tiled(text, ps)
    requires u.start == m.docStart < u.end == m.docEnd <= |text|
    requires u.text == text[u.start..u.end] && '\n' !in u.text
    ensures var located := Located(ps, m);
            && located.paragraph.Some? && located.paragraph.value < |ps|
            && located.page == ps[located.paragraph.value].page
            && forall j :: 0 <= j < |ps| ==> (UnitIn(ps[j], u) <==> j == located.paragraph.value)
  {
    StretchInOneParagraph(text, ps, m);
    var i := Located(ps, m).paragraph.value;
    assert Anchored(text, ps[i]);
    hide Located, Tiled, Anchored;
    AnchoredUnit(text, ps[i], u);
  }

  lemma AnchoredUnit(text: string, p: Paragraph, u: Unit)
    requires Anchored(text, p)
    requires p.start <= u.start < u.end <= p.end && u.text == text[u.start..u.end]
    ensures UnitIn(p, u)
  {
    assert text[u.start..u.end] == text[p.start..p.end][u.start - p.start..u.end - p.start];
  }
}
