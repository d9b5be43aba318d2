/** Integers through an IEEE 754 double, as encoding/json carries every number it decodes into an
    untyped value. */
module Float64 {

  const TWO_TO_53: int := 0x20_0000_0000_0000
  const TWO_TO_52: int := 0x10_0000_0000_0000
  const MIN_INT64: int := -0x8000_0000_0000_0000
  const MAX_INT64: int := 0x7FFF_FFFF_FFFF_FFFF

  function Pow2(e: nat): (p: nat)
    ensures p > 0
  {
    if e == 0 then 1 else 2 * Pow2(e - 1)
  }

  /** The spacing of doubles around an integer of magnitude m: the least power of two u with m < 2^53 * u. */
  function Spacing(m: nat): (u: nat)
    ensures u > 0
  {
    if m < TWO_TO_53 then 1 else 2 * Spacing(m / 2)
  }

  /** Round to nearest, ties to even. */
  function RoundMagnitude(m: nat): nat {
    var u := Spacing(m);
    var q, r := m / u, m % u;
    if 2 * r < u || (2 * r == u && q % 2 == 0) then q * u else (q + 1) * u
  }

  function ToFloat64(n: int): int {
    if n >= 0 then RoundMagnitude(n) else 0 - RoundMagnitude(-n)
  }

  /** int64(f); a value out of range gives the smallest integer, as on amd64. */
  function ToInt64(f: int): int {
    if MIN_INT64 <= f <= MAX_INT64 then f else MIN_INT64
  }

  /** What an int64 comes back as after being stored as a JSON number and read as a float64. */
  function ThroughFloat64(n: int): int {
    ToInt64(ToFloat64(n))
  }

  function Magnitude(n: int): nat {
    if n >= 0 then n else -n
  }

  lemma Euclid(m: nat, u: nat)
    requires u > 0
    ensures m == (m / u) * u + m % u
  {
  }

  lemma TimesMonotone(a: nat, b: nat, u: nat)
    requires a <= b
    ensures a * u <= b * u
    ensures a < b ==> a * u + u <= b * u
  {
    if a < b {
      assert b * u == a * u + (b - a) * u;
      assert (b - a) * u == u + (b - a - 1) * u;
    }
  }

  lemma DivUnique(m: nat, q: nat, r: nat, u: nat)
    requires u > 0 && m == q * u + r && r < u
    ensures m / u == q && m % u == r
  {
    Euclid(m, u);
    if q < m / u {
      TimesMonotone(q, m / u, u);
    } else if q > m / u {
      TimesMonotone(m / u, q, u);
    }
  }

  lemma MultipleMod(q: nat, u: nat)
    requires u > 0
    ensures (q * u) % u == 0 && (q * u) / u == q
  {
    DivUnique(q * u, q, 0, u);
  }

  lemma RoundExactIff(m: nat)
    ensures RoundMagnitude(m) == m <==> m % Spacing(m) == 0
  {
    var u := Spacing(m);
    Euclid(m, u);
    var q, r := m / u, m % u;
    if r != 0 {
      assert q * u < m < (q + 1) * u by {
        assert (q + 1) * u == q * u + u;
      }
    }
  }

  /** The round trip is exact precisely for the integers a double can hold: the multiples of the spacing
      at their magnitude. */
  lemma RoundTripsIff(n: int)
    requires MIN_INT64 <= n <= MAX_INT64
    ensures ThroughFloat64(n) == n <==> Magnitude(n) % Spacing(Magnitude(n)) == 0
    ensures ThroughFloat64(n) == n <==> IsDouble(Magnitude(n))
  {
    IsDoubleIff(Magnitude(n));
    RoundExactIff(Magnitude(n));
    if ToFloat64(n) < MIN_INT64 || ToFloat64(n) > MAX_INT64 {
      NoUnderflow(n);
    }
  }

  // ---------------------------------------------------------------- what the functions compute

  /** An integer significand of at most 53 bits times a power of two. */
  predicate IsDoubleWith(d: nat, significand: nat, exponent: nat) {
    significand < TWO_TO_53 && d == significand * Pow2(exponent)
  }

  ghost predicate IsDouble(d: nat) {
    exists k: nat, e: nat :: IsDoubleWith(d, k, e)
  }

  /** The doubles are the multiples of the spacing at their magnitude. */
  lemma IsDoubleIff(d: nat)
    ensures IsDouble(d) <==> d % Spacing(d) == 0
  {
    if IsDouble(d) {
      var k: nat, e: nat :| IsDoubleWith(d, k, e);
      MultipleIsExact(k, e);
    }
    var e := SpacingIsPower(d);
    SignificandFits(d);
    Euclid(d, Spacing(d));
    if d % Spacing(d) == 0 {
      assert IsDoubleWith(d, d / Spacing(d), e);
    }
  }

  /** The spacing is the least that lets the significand fit. */
  lemma {:induction false} SpacingIsLeast(m: nat)
    ensures Spacing(m) > 1 ==> m >= TWO_TO_52 * Spacing(m)
  {
    if m >= TWO_TO_53 {
      SpacingIsLeast(m / 2);
    }
  }

  function Distance(a: nat, b: nat): nat {
    if a <= b then b - a else a - b
  }

  lemma {:induction false} SmallerPowerDivides(e: nat, f: nat)
    requires e <= f
    ensures Pow2(f) % Pow2(e) == 0 && Pow2(e) <= Pow2(f) && (e < f ==> 2 * Pow2(e) <= Pow2(f))
  {
    if e < f {
      SmallerPowerDivides(e, f - 1);
      DividesMultiple(Pow2(f - 1), Pow2(e), 2);
    }
  }

  /** A double below the magnitude's binade is too far away; from there on the doubles are multiples of the spacing. */
  lemma DoubleNearby(m: nat, d: nat)
    requires IsDouble(d)
    ensures d % Spacing(m) == 0 || d < TWO_TO_52 * Spacing(m) <= m
  {
    IsDoubleIff(d);
    SpacingIsLeast(m);
    var e := SpacingIsPower(m);
    var f := SpacingIsPower(d);
    if e <= f {
      SmallerPowerDivides(e, f);
      Euclid(d, Spacing(d));
      DividesMultiple(Pow2(f), Pow2(e), d / Spacing(d));
    } else {
      SmallerPowerDivides(f, e);
    }
  }

  /** Of the multiples of u, the lower neighbour is r away and the upper one u - r. */
  lemma NearestMultiple(q: nat, r: nat, u: nat, k: nat)
    requires r < u
    ensures k <= q ==> Distance(k * u, q * u + r) >= r && (k < q ==> Distance(k * u, q * u + r) > r)
    ensures k > q ==> Distance(k * u, q * u + r) >= u - r && (k > q + 1 ==> Distance(k * u, q * u + r) > u - r)
  {
    if k <= q {
      TimesMonotone(k, q, u);
    } else {
      assert (q + 1) * u == q * u + u;
      TimesMonotone(q + 1, k, u);
    }
  }

  function Rounded(q: nat, r: nat, u: nat): nat {
    if 2 * r < u || (2 * r == u && q % 2 == 0) then q else q + 1
  }

  lemma RoundedIsNearestMultiple(q: nat, r: nat, u: nat, k: nat)
    requires r < u
    ensures var n, m := Rounded(q, r, u), q * u + r;
            && Distance(n * u, m) <= Distance(k * u, m) && Distance(n * u, m) <= r
            && (k != n && Distance(n * u, m) == Distance(k * u, m) ==> n % 2 == 0)
  {
    NearestMultiple(q, r, u, k);
    assert (q + 1) * u == q * u + u;
  }

  lemma RoundedIsNearest(m: nat, q: nat, r: nat, u: nat, d: nat, k: nat)
    requires m == q * u + r && r < u && (d == k * u || d < TWO_TO_52 * u <= q * u)
    ensures var n := Rounded(q, r, u);
            && Distance(n * u, m) <= Distance(d, m)
            && (d != n * u && Distance(n * u, m) == Distance(d, m) ==> n % 2 == 0)
  {
    RoundedIsNearestMultiple(q, r, u, k);
    hide Rounded;
  }

  lemma RoundedIsDouble(m: nat)
    ensures IsDouble(RoundMagnitude(m))
  {
    RoundIdempotent(m);
    RoundExactIff(RoundMagnitude(m));
    IsDoubleIff(RoundMagnitude(m));
  }

  /** Rounding gives a double, no double is nearer, and of two that are equally near it takes the one with the even
      significand. */
  lemma RoundsToNearestEven(m: nat, d: nat)
    requires IsDouble(d)
    ensures IsDouble(RoundMagnitude(m))
    ensures Distance(RoundMagnitude(m), m) <= Distance(d, m)
    ensures d != RoundMagnitude(m) && Distance(RoundMagnitude(m), m) == Distance(d, m) ==>
              (RoundMagnitude(m) / Spacing(m)) % 2 == 0
  {
    RoundedIsDouble(m);
    var n, q, r := RoundedSignificand(m);
    var k := MultipleOrFar(m, d, q, r);
    RoundedIsNearest(m, q, r, Spacing(m), d, k);
  }

  lemma Divide(m: nat, u: nat) returns (q: nat, r: nat)
    requires u > 0
    ensures m == q * u + r && r < u && m / u == q && m % u == r
  {
    q, r := m / u, m % u;
    Euclid(m, u);
  }

  lemma RoundedSignificand(m: nat) returns (n: nat, q: nat, r: nat)
    ensures m == q * Spacing(m) + r && r < Spacing(m) && n == Rounded(q, r, Spacing(m))
    ensures RoundMagnitude(m) == n * Spacing(m) && RoundMagnitude(m) / Spacing(m) == n
  {
    q, r := Divide(m, Spacing(m));
    n := Rounded(q, r, Spacing(m));
    MultipleMod(n, Spacing(m));
  }

  lemma MultipleOrFar(m: nat, d: nat, q: nat, r: nat) returns (k: nat)
    requires IsDouble(d) && m == q * Spacing(m) + r && r < Spacing(m)
    ensures d == k * Spacing(m) || d < TWO_TO_52 * Spacing(m) <= q * Spacing(m)
  {
    DoubleNearby(m, d);
    var s: nat;
    k, s := Divide(d, Spacing(m));
    hide *;
    if s != 0 {
      SmallerThanQuotient(m, q, r, Spacing(m));
    }
  }

  lemma SmallerThanQuotient(m: nat, q: nat, r: nat, u: nat)
    requires m == q * u + r && r < u && TWO_TO_52 * u <= m
    ensures TWO_TO_52 * u <= q * u
  {
    if q < TWO_TO_52 {
      TimesMonotone(q, TWO_TO_52, u);
      assert false;
    }
    TimesMonotone(TWO_TO_52, q, u);
  }

  lemma RoundUpFits(m: nat, e: nat)
    requires m < TWO_TO_53 * Pow2(e)
    ensures Pow2(e) % Spacing(m) == 0
    decreases e
  {
    if m >= TWO_TO_53 {
      assert e > 0;
      RoundUpFits(m / 2, e - 1);
      Euclid(Pow2(e - 1), Spacing(m / 2));
      var k := Pow2(e - 1) / Spacing(m / 2);
      assert Pow2(e) == k * Spacing(m) by {
        assert 2 * (k * Spacing(m / 2)) == k * (2 * Spacing(m / 2));
      }
      MultipleMod(k, Spacing(m));
    }
  }

  lemma SpacingIsPower(m: nat) returns (e: nat)
    ensures Spacing(m) == Pow2(e) && m < TWO_TO_53 * Pow2(e)
  {
    if m < TWO_TO_53 {
      e := 0;
    } else {
      var d := SpacingIsPower(m / 2);
      e := d + 1;
    }
  }

  /** Cut off at the spacing, the significand has at most 53 bits. */
  lemma SignificandFits(m: nat)
    ensures m / Spacing(m) < TWO_TO_53
  {
    var e := SpacingIsPower(m);
    var u := Spacing(m);
    Euclid(m, u);
    if m / u >= TWO_TO_53 {
      TimesMonotone(TWO_TO_53, m / u, u);
    }
  }

  /** A rounded magnitude is a double, so rounding it again changes nothing. */
  lemma RoundIdempotent(m: nat)
    ensures RoundMagnitude(RoundMagnitude(m)) == RoundMagnitude(m)
  {
    SignificandFits(m);
    var e := SpacingIsPower(m);
    var q := m / Spacing(m);
    var k := if RoundMagnitude(m) == q * Pow2(e) then q else q + 1;
    MultipleIsExact(k, e);
    RoundExactIff(k * Pow2(e));
  }

  /** A significand of at most 2^53 times a power of two is a double. */
  lemma MultipleIsExact(k: nat, e: nat)
    requires k <= TWO_TO_53
    ensures (k * Pow2(e)) % Spacing(k * Pow2(e)) == 0
  {
    var u := Pow2(e);
    if k < TWO_TO_53 {
      TimesMonotone(k, TWO_TO_53, u);
      RoundUpFits(k * u, e);
      DividesMultiple(u, Spacing(k * u), k);
    } else {
      var half: nat := TWO_TO_53 / 2;
      assert k * u == half * Pow2(e + 1);
      RoundUpFits(k * u, e + 1);
      DividesMultiple(Pow2(e + 1), Spacing(k * u), half);
    }
  }

  lemma DividesMultiple(p: nat, u: nat, k: nat)
    requires u > 0 && p % u == 0
    ensures (k * p) % u == 0
  {
    Euclid(p, u);
    assert k * p == (k * (p / u)) * u;
    MultipleMod(k * (p / u), u);
  }

  /** Within int64 the smallest value is a double, so only the top can leave the range. */
  lemma NoUnderflow(n: int)
    requires MIN_INT64 <= n <= MAX_INT64
    requires ToFloat64(n) < MIN_INT64 || ToFloat64(n) > MAX_INT64
    ensures ToInt64(ToFloat64(n)) != n && n > 0
  {
    if n <= 0 {
      MagnitudeAtMost63(Magnitude(n));
      assert false;
    }
  }

  lemma MagnitudeAtMost63(m: nat)
    requires m <= 0x8000_0000_0000_0000
    ensures RoundMagnitude(m) <= 0x8000_0000_0000_0000
  {
    hide Spacing;
    var top: nat := 0x8000_0000_0000_0000;
    var u := Spacing(m);
    SpacingDividesTop(m);
    Euclid(top, u);
    Euclid(m, u);
    if m % u > 0 {
      RoundUpWithin(m / u, m % u, u, top / u);
    }
  }

  lemma RoundUpWithin(q: nat, r: nat, u: nat, k: nat)
    requires 0 < r < u && q * u + r <= k * u
    ensures (q + 1) * u <= k * u
  {
    if q >= k {
      TimesMonotone(k, q, u);
      assert false;
    }
    TimesMonotone(q, k, u);
  }

  lemma SpacingDividesTop(m: nat)
    requires m <= 0x8000_0000_0000_0000
    ensures 0x8000_0000_0000_0000 % Spacing(m) == 0
  {
    assert Pow2(11) == 2048;
    RoundUpFits(m, 11);
    DividesMultiple(2048, Spacing(m), 0x10_0000_0000_0000);
  }

  /** Reading a stored period back and storing it again gives the same period. */
  lemma ThroughFloat64Idempotent(n: int)
    requires MIN_INT64 <= n <= MAX_INT64
    ensures MIN_INT64 <= ThroughFloat64(n) <= MAX_INT64
    ensures ThroughFloat64(ThroughFloat64(n)) == ThroughFloat64(n)
    ensures ThroughFloat64(n) == 0 <==> n == 0
  {
    RoundIdempotent(Magnitude(n));
    RoundPositive(Magnitude(n));
    if ToFloat64(n) < MIN_INT64 || ToFloat64(n) > MAX_INT64 {
      MinIsADouble();
    }
  }

  lemma MinIsADouble()
    ensures ToFloat64(MIN_INT64) == MIN_INT64
  {
    SpacingDividesTop(0x8000_0000_0000_0000);
    RoundExactIff(0x8000_0000_0000_0000);
  }

  lemma RoundPositive(m: nat)
    ensures RoundMagnitude(m) == 0 <==> m == 0
  {
    if m >= TWO_TO_53 {
      var u := Spacing(m);
      SpacingAtMost(m);
      Euclid(m, u);
      TimesMonotone(1, m / u, u);
      TimesMonotone(m / u, m / u + 1, u);
    }
  }

  lemma SpacingAtMost(m: nat)
    requires m >= TWO_TO_53
    ensures Spacing(m) <= m
  {
    if m / 2 >= TWO_TO_53 {
      SpacingAtMost(m / 2);
    }
  }

  /** Every period of magnitude up to 2^53 survives; the next one does not. */
  lemma SmallPeriodsRoundTrip(n: int)
    ensures -TWO_TO_53 <= n <= TWO_TO_53 ==> ThroughFloat64(n) == n
    ensures ThroughFloat64(TWO_TO_53 + 1) == TWO_TO_53
  {
    assert Spacing(TWO_TO_53) == 2 && Spacing(TWO_TO_53 + 1) == 2 by {
      assert Spacing(TWO_TO_53 / 2) == 1;
    }
    if -TWO_TO_53 <= n <= TWO_TO_53 {
      RoundExactIff(Magnitude(n));
    }
    var m := TWO_TO_53 + 1;
    assert m / 2 == 0x10_0000_0000_0000 && m % 2 == 1;
  }

  /** No other number is read back as zero. */
  lemma OnlyZeroIsZero(n: int)
    ensures ThroughFloat64(n) == 0 <==> n == 0
  {
    assert IsDoubleWith(1, 1, 0);
    RoundsToNearestEven(Magnitude(n), 1);
  }
}
