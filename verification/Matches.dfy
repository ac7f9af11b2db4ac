/** The match records that the matcher produces and later stages annotate. */
module Matches {

  datatype Option<+T> = None | Some(value: T)

  datatype Kind = Verbatim | Paraphrase | Translated

  datatype Band = Confident | Review

  datatype Match = Match(
    kind: Kind,
    similarity: real,
    band: Band,
    words: nat,
    docStart: nat,
    docEnd: nat,
    sourceId: string,
    sourceStart: nat,
    sourceEnd: nat,
    sourceExcerpt: string,
    docExcerpt: string := "",
    rerankScore: Option<real> := None,
    paragraph: Option<nat> := None,
    page: Option<nat> := None)

  function Min(x: int, y: int): int {
    if x < y then x else y
  }

  function Max(x: int, y: int): int {
    if x > y then x else y
  }

  /** A text slice with both bounds cut back to the text, as the language slices. */
  function Slice(text: string, a: nat, b: nat): string {
    var hi := if b < |text| then b else |text|;
    if a < hi then text[a..hi] else []
  }

  /** Spans from left to right, none overlapping another. */
  ghost predicate DisjointSpans(ranges: seq<(int, int)>) {
    && (forall i :: 0 <= i < |ranges| ==> ranges[i].0 <= ranges[i].1)
    && (forall i, j :: 0 <= i < j < |ranges| ==> ranges[i].1 <= ranges[j].0)
  }

  function DocSpans(matches: seq<Match>): (r: seq<(int, int)>)
    ensures |r| == |matches|
    ensures forall i :: 0 <= i < |r| ==> r[i].0 == matches[i].docStart && r[i].1 == matches[i].docEnd
  {
    seq(|matches|, i requires 0 <= i < |matches| => (matches[i].docStart, matches[i].docEnd))
  }
}
