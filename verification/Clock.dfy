/** Readings of a clock that does not run backwards. */
module Clock {

  /** The readings never fall, starting from `from`. */
  ghost predicate MovesOn(times: seq<real>, from: real) {
    && (forall i :: 0 <= i < |times| ==> from <= times[i])
    && (forall i, j :: 0 <= i < j < |times| ==> times[i] <= times[j])
  }

  lemma MovesOnRest(times: seq<real>, from: real)
    requires times != [] && MovesOn(times, from)
    ensures from <= times[0] && MovesOn(times[1..], times[0])
  {}
}
