/** Rounding to the nearest integer on exact quotients, ties to even. */
module Rounding {

  function Nearest(num: int, den: int): int
    requires den > 0
  {
    var q, r := num / den, num % den;
    if 2 * r < den || (2 * r == den && q % 2 == 0) then q else q + 1
  }

  /** `x` to four decimals. */
  function Round4(x: real): real {
    var scaled := x * 10000.0;
    var f := scaled.Floor;
    var rest := scaled - f as real;
    (if rest < 0.5 || (rest == 0.5 && f % 2 == 0) then f else f + 1) as real / 10000.0
  }

  /** The result is never further than half a unit from the quotient. */
  lemma NearestError(num: int, den: int)
    requires den > 0
    ensures -den <= 2 * (Nearest(num, den) * den - num) <= den
  {
    var q, r := num / den, num % den;
    assert num == q * den + r;
    assert (q + 1) * den == q * den + den;
  }

  /** Halfway cases go to the even neighbour. */
  lemma NearestTies(num: int, den: int)
    requires den > 0 && 2 * (num % den) == den
    ensures Nearest(num, den) % 2 == 0
  {}

  /** Four decimals: never further than half a unit of the fourth, halfway to the even one. */
  lemma Round4Error(x: real)
    ensures var units := Round4(x) * 10000.0;
            && units == units.Floor as real
            && -0.5 <= units - x * 10000.0 <= 0.5
            && ((units - x * 10000.0 == 0.5 || units - x * 10000.0 == -0.5) ==> units.Floor % 2 == 0)
  {}

  /** A percentage in hundredths: 100 * part / total to two decimals, and 0 of nothing. */
  function Percent(part: int, total: nat): int {
    if total == 0 then 0 else Nearest(10000 * part, total)
  }

  /** The percentage is the nearest number of hundredths, and 0 of nothing. */
  lemma PercentMeaning(part: int, total: nat)
    ensures total == 0 ==> Percent(part, total) == 0
    ensures total > 0 ==> 0 - total <= 2 * (Percent(part, total) * total - 10000 * part) <= total
    ensures total > 0 && 2 * ((10000 * part) % total) == total ==> Percent(part, total) % 2 == 0
  {
    if total > 0 {
      NearestError(10000 * part, total);
    }
  }

  lemma TimesMonotone(x: int, y: int, n: int)
    requires n > 0
    ensures x <= y ==> x * n <= y * n
  {}

  /** A multiple of `n` strictly inside `(k + 1) * n` on both sides is at most `k` in size. */
  lemma TimesAtMost(d: int, n: int, k: int)
    requires n > 0 && -(k + 1) * n < d * n < (k + 1) * n
    ensures -k <= d <= k
  {
    TimesMonotone(k + 1, d, n);
    TimesMonotone(d, -(k + 1), n);
  }

  /** How far `Percent` is from the exact percentage, scaled by the total. */
  ghost function Error(part: int, total: nat): int {
    Percent(part, total) * total - 10000 * part
  }

  lemma ErrorBound(part: int, total: nat)
    requires total > 0
    ensures 0 - total <= 2 * Error(part, total) <= total
  {
    NearestError(10000 * part, total);
  }

  /** Rounding three parts separately drifts from rounding their sum by at most two hundredths. */
  lemma ThreePartsDrift(a: int, b: int, c: int, total: nat)
    ensures -2 <= Percent(a, total) + Percent(b, total) + Percent(c, total) - Percent(a + b + c, total) <= 2
  {
    if total > 0 {
      ErrorBound(a, total);
      ErrorBound(b, total);
      ErrorBound(c, total);
      ErrorBound(a + b + c, total);
      var ha, hb, hc, h := Percent(a, total), Percent(b, total), Percent(c, total), Percent(a + b + c, total);
      Distribute(ha, hb, hc, h, total);
      TimesAtMost(ha + hb + hc - h, total, 2);
    }
  }

  lemma Distribute(a: int, b: int, c: int, d: int, n: int)
    ensures (a + b + c - d) * n == a * n + b * n + c * n - d * n
  {}

  /** Rounding two parts separately drifts by at most one hundredth. */
  lemma TwoPartsDrift(a: int, b: int, total: nat)
    ensures -1 <= Percent(a, total) + Percent(b, total) - Percent(a + b, total) <= 1
  {
    if total > 0 {
      ErrorBound(a, total);
      ErrorBound(b, total);
      ErrorBound(a + b, total);
      var ha, hb, h := Percent(a, total), Percent(b, total), Percent(a + b, total);
      Distribute(ha, hb, 0, h, total);
      TimesAtMost(ha + hb - h, total, 1);
    }
  }
}
