/** Rounding of real results to doubles (section 6.1.6.1 of ECMA-262), for results from one half on. */
module Doubles {
  import opened JsNumber

  /** The product of reals, under a name so that equal factors give equal products. */
  function Times(x: real, y: real): real { x * y }

  lemma TimesRing(x: real, y: real, z: real)
    ensures Times(x, y) == Times(y, x) && Times(Times(x, y), z) == Times(x, Times(y, z))
    ensures Times(x - y, z) == Times(x, z) - Times(y, z)
  {
  }

  lemma TimesPositive(x: real, u: real)
    ensures x >= 0.0 && u >= 0.0 ==> Times(x, u) >= 0.0
    ensures x > 0.0 && u > 0.0 ==> Times(x, u) > 0.0
  {
  }

  lemma TimesMono(x: real, y: real, u: real)
    requires x <= y && u >= 0.0
    ensures Times(x, u) <= Times(y, u)
  {
    TimesRing(y, x, u);
    TimesPositive(y - x, u);
  }

  lemma TimesOfIntegers(m: int, n: int)
    ensures Times(m as real, n as real) == (m * n) as real
  {
  }

  /** The nearest integer, the even one of two. */
  function Nearest(y: real): int {
    var f := y.Floor;
    if y - f as real < 0.5 then f else if y - f as real > 0.5 then f + 1 else if f % 2 == 0 then f else f + 1
  }

  function PerUnitFrom(x: real, limit: nat, unit: nat): (u: nat)
    requires unit >= 1
    ensures u >= 1
    decreases unit
  {
    if x < limit as real || unit == 1 then unit else PerUnitFrom(x, 2 * limit, unit / 2)
  }

  /** How many doubles lie in a unit interval near x: 2^53 below 1, and half as many in each
      further binade. */
  function PerUnit(x: real): (u: nat)
    ensures u >= 1
  {
    PerUnitFrom(x, 1, 0x20_0000_0000_0000)
  }

  /** The nearest multiple of 1 / u. */
  function RoundedTo(x: real, u: real): real
    requires u > 0.0
  {
    Nearest(Times(x, u)) as real / u
  }

  function Rounded(x: real): real { RoundedTo(x, PerUnit(x) as real) }

  lemma NearestBetween(y: real, lo: int, hi: int)
    requires lo as real <= y <= hi as real
    ensures lo <= Nearest(y) <= hi
  {
  }

  lemma QuotientBetween(n: real, lo: real, hi: real, u: real)
    requires u > 0.0
    ensures Times(lo, u) <= n <= Times(hi, u) ==> lo <= n / u <= hi
    ensures n < Times(hi, u) ==> n / u < hi
  {
    var q := n / u;
    assert Times(q, u) == n;
    hide Times;
    TimesRing(lo, q, u);
    TimesRing(q, hi, u);
    TimesPositive(lo - q, u);
    TimesPositive(q - hi, u);
  }

  /** Rounding never leaves an interval whose ends are multiples of the spacing. */
  lemma RoundedBetween(x: real, u: real, lo: real, hi: real, a: int, b: int)
    requires u > 0.0 && lo <= x <= hi && Times(lo, u) == a as real && Times(hi, u) == b as real
    ensures lo <= RoundedTo(x, u) <= hi
  {
    hide Nearest, Times;
    TimesMono(lo, x, u);
    TimesMono(x, hi, u);
    NearestBetween(Times(x, u), a, b);
    QuotientBetween(Nearest(Times(x, u)) as real, lo, hi, u);
  }

  /** Integers are doubles here. */
  lemma RoundedBetweenIntegers(x: real, lo: int, hi: int)
    requires lo as real <= x <= hi as real
    ensures lo as real <= Rounded(x) <= hi as real
  {
    hide PerUnit, RoundedTo, Times;
    var u := PerUnit(x);
    TimesOfIntegers(lo, u);
    TimesOfIntegers(hi, u);
    RoundedBetween(x, u as real, lo as real, hi as real, lo * u, hi * u);
  }

  lemma NearestBelow(y: real, b: int)
    requires y < b as real - 0.5
    ensures Nearest(y) < b
  {
  }

  /** Below a multiple of the spacing that is more than half a spacing away, rounding stays below it. */
  lemma RoundedBelow(x: real, u: real, hi: real, b: int)
    requires u > 0.0 && Times(hi, u) == b as real && Times(hi - x, u) > 0.5
    ensures RoundedTo(x, u) < hi
  {
    hide Nearest, Times;
    TimesRing(hi, x, u);
    NearestBelow(Times(x, u), b);
    QuotientBetween(Nearest(Times(x, u)) as real, hi, hi, u);
  }

  lemma Quotients(n: nat, d: nat)
    requires d >= 1
    ensures n / d <= n
  {
  }

  lemma HalfOfMultiple(n: nat, p: nat)
    requires p >= 1 && n % (2 * p) == 0
    ensures n / 2 % p == 0 && n / 2 / p == n / (2 * p)
  {
    var q := n / (2 * p);
    assert n == q * (2 * p);
    assert q * (2 * p) == 2 * (q * p);
    DivModUnique(n / 2, q, 0, p);
  }

  /** The spacing below 2^m times the limit. */
  lemma {:induction false} PerUnitAtLeast(x: real, limit: nat, unit: nat, m: nat)
    requires unit >= 1 && x < (limit * Pow2(m)) as real && unit % Pow2(m) == 0
    ensures PerUnitFrom(x, limit, unit) >= unit / Pow2(m)
    decreases m
  {
    if m == 0 {
      assert Pow2(0) == 1;
    } else if x >= limit as real && unit != 1 {
      HalfOfMultiple(unit, Pow2(m - 1));
      assert limit * Pow2(m) == 2 * limit * Pow2(m - 1);
      PerUnitAtLeast(x, 2 * limit, unit / 2, m - 1);
    } else {
      Quotients(unit, Pow2(m));
    }
  }
}
