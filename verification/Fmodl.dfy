/** The remainder of two quadruple-precision numbers, by shifts and subtractions on
    113-bit significands kept in two 64-bit words. */
module Fmodl {
  import opened Common
  import opened Bits

  const TWO_48: nat := 0x1_0000_0000_0000
  const TWO_51: nat := 0x8_0000_0000_0000
  const TWO_63: nat := 0x8000_0000_0000_0000

  /** The weight of a significand's leading bit, 2^112. */
  const LEAD: nat := TWO_48 * TWO_64

  const MAX_EXPONENT: nat := 0x7FFE

  /** The word at hand after unsigned 64-bit arithmetic. */
  function Wrap(n: int): nat {
    n % TWO_64
  }

  /** Numbers in the 128-bit binary format of IEEE 754: a biased exponent of 0 marks
      numbers without a leading bit. */
  datatype LongDouble =
    | Finite(negative: bool, exponent: nat, fraction: nat)
    | Infinite(negative: bool)
    | NaN

  predicate WellFormed(x: LongDouble) {
    x.Finite? ==> x.exponent <= MAX_EXPONENT && x.fraction < LEAD
  }

  /** The magnitude of a finite number, counted in smallest positive numbers. */
  function Units(x: LongDouble): nat
    requires x.Finite?
  {
    if x.exponent == 0 then x.fraction else (LEAD + x.fraction) * Pow2(x.exponent - 1)
  }

  lemma Squared(n: nat, v: nat)
    requires Pow2(n) == v
    ensures Pow2(2 * n) == v * v
  {
    hide Pow2;
    Pow2Add(n, n);
  }

  lemma SmallPowers()
    ensures Pow2(8) == 256 && Pow2(9) == 512
  {
    assert Pow2(4) == 16;
  }

  lemma WordPowers()
    ensures Pow2(16) == 0x1_0000 && Pow2(32) == 0x1_0000_0000 && Pow2(64) == TWO_64
  {
    hide Pow2;
    SmallPowers();
    Squared(8, 256);
    Squared(16, 0x1_0000);
    Squared(32, 0x1_0000_0000);
  }

  lemma LeadIsPow2()
    ensures Pow2(112) == LEAD && Pow2(121) == 512 * LEAD
  {
    hide Pow2;
    WordPowers();
    Pow2Add(16, 32);
    Pow2Add(48, 64);
    SmallPowers();
    Pow2Add(9, 112);
  }

  // Two words as one number.

  function Value(hi: nat, lo: nat): nat {
    hi * TWO_64 + lo
  }

  lemma WrapIs(n: int)
    requires -(TWO_64 as int) <= n < TWO_64
    ensures Wrap(n) == if n >= 0 then n else n + TWO_64
  {
    DivUnique(n, TWO_64, if n >= 0 then 0 else -1, Wrap(n));
  }

  /** Word-wise subtraction with borrow: the sign bit of the high word tells which number
      is larger, and if it is clear the words are the difference. */
  lemma Borrow(xhi: nat, xlo: nat, yhi: nat, ylo: nat)
    requires xhi < TWO_51 && yhi < TWO_51 && xlo < TWO_64 && ylo < TWO_64
    ensures var lo := Wrap(xlo - ylo);
            var hi := if xlo < ylo then Wrap(Wrap(xhi - yhi) - 1) else Wrap(xhi - yhi);
            && lo < TWO_64 && hi < TWO_64
            && (hi / TWO_63 == 0 <==> Value(xhi, xlo) >= Value(yhi, ylo))
            && (hi / TWO_63 == 0 ==> Value(hi, lo) == Value(xhi, xlo) - Value(yhi, ylo) && hi < TWO_51)
  {
    hide Wrap;
    WrapIs(xlo - ylo);
    WrapIs(xhi - yhi);
    WrapIs(Wrap(xhi - yhi) - 1);
  }

  lemma Doubled(hi: nat, lo: nat)
    requires hi < TWO_51 && lo < TWO_64
    ensures Wrap(2 * lo) < TWO_64 && Wrap(2 * hi + lo / TWO_63) == 2 * hi + lo / TWO_63
    ensures Value(2 * hi + lo / TWO_63, Wrap(2 * lo)) == 2 * Value(hi, lo)
  {
  }

  /** Below 2^115 the high word stays small. */
  lemma SmallHigh(hi: nat, lo: nat)
    requires Value(hi, lo) < 4 * LEAD
    ensures hi < TWO_51
  {
  }

  // The remainder.

  /** One step of the loop keeps the remainder: nothing but a multiple of y is taken away,
      and the doubling uses up one of the remaining steps. */
  lemma ReduceStep(x: nat, y: nat, d: nat, diff: nat)
    requires y > 0 && d > 0
    requires diff == x || x == diff + y
    ensures (2 * diff * Pow2(d - 1)) % y == (x * Pow2(d)) % y
  {
    var p := Pow2(d);
    Regroup(2, diff, Pow2(d - 1));
    assert 2 * diff * Pow2(d - 1) == diff * p;
    if diff != x {
      Distribute(diff, y, p);
      assert x * p == diff * p + p * y;
      ModDrops(diff * p, p, y);
    }
  }

  lemma Vanishes(x: nat, p: nat)
    requires x > 0
    ensures (x * p) % x == 0
  {
    DivExact(p, x);
  }

  lemma LastStep(x: nat, y: nat, r: nat)
    requires 0 < y && 0 < x < 2 * y && (x * Pow2(0)) % y == r
    ensures r == if x >= y then x - y else x
  {
    DivUnique(x, y, if x >= y then 1 else 0, if x >= y then x - y else x);
  }

  lemma Magnitudes(hi: nat, lo: nat)
    ensures Value(hi, lo) == 0 <==> hi == 0 && lo == 0
  {
  }

  /** The difference of two significands, with the sign of it in bit 63 of the high word. */
  method Subtract(xhi: nat, xlo: nat, yhi: nat, ylo: nat) returns (hi: nat, lo: nat)
    requires xlo < TWO_64 && ylo < TWO_64 && Value(xhi, xlo) < 4 * LEAD && Value(yhi, ylo) < 4 * LEAD
    ensures lo < TWO_64 && (hi / TWO_63 == 0 <==> Value(xhi, xlo) >= Value(yhi, ylo))
    ensures hi / TWO_63 == 0 ==> hi < TWO_51 && Value(hi, lo) == Value(xhi, xlo) - Value(yhi, ylo)
  {
    SmallHigh(xhi, xlo);
    SmallHigh(yhi, ylo);
    hi, lo := Wrap(xhi - yhi), Wrap(xlo - ylo);
    if xlo < ylo {
      hi := Wrap(hi - 1);
    }
    Borrow(xhi, xlo, yhi, ylo);
  }

  /** One round of the reduction loop, with k rounds to go. */
  method ReduceRound(vhi: nat, vlo: nat, yhi: nat, ylo: nat, ghost k: nat) returns (whi: nat, wlo: nat, zero: bool)
    requires vlo < TWO_64 && ylo < TWO_64 && k > 0
    requires LEAD <= Value(yhi, ylo) < 2 * LEAD && 0 < Value(vhi, vlo) < 2 * Value(yhi, ylo)
    ensures zero ==> (Value(vhi, vlo) * Pow2(k)) % Value(yhi, ylo) == 0
    ensures !zero ==>
              && wlo < TWO_64 && 0 < Value(whi, wlo) < 2 * Value(yhi, ylo)
              && (Value(whi, wlo) * Pow2(k - 1)) % Value(yhi, ylo) == (Value(vhi, vlo) * Pow2(k)) % Value(yhi, ylo)
  {
    hide Pow2, Wrap, Value;
    ghost var x, y := Value(vhi, vlo), Value(yhi, ylo);
    SmallHigh(vhi, vlo);
    var hi, lo := Subtract(vhi, vlo, yhi, ylo);
    Magnitudes(hi, lo);
    if hi / TWO_63 == 0 {
      if hi == 0 && lo == 0 {
        Vanishes(x, Pow2(k));
        return 0, 0, true;
      }
      Doubled(hi, lo);
      ReduceStep(x, y, k, x - y);
      return Wrap(2 * hi + lo / TWO_63), Wrap(2 * lo), false;
    }
    Doubled(vhi, vlo);
    ReduceStep(x, y, k, x);
    return Wrap(2 * vhi + vlo / TWO_63), Wrap(2 * vlo), false;
  }

  /** The reduction loop: x * 2^(ex - ey) modulo y, on significands. */
  method Reduce(xh: nat, xl: nat, yhi: nat, ylo: nat, ex: int, ey: int) returns (vhi: nat, vlo: nat)
    requires xl < TWO_64 && ylo < TWO_64 && ey <= ex
    requires LEAD <= Value(xh, xl) < 2 * LEAD && LEAD <= Value(yhi, ylo) < 2 * LEAD
    ensures vlo < TWO_64 && Value(vhi, vlo) == (Value(xh, xl) * Pow2(ex - ey)) % Value(yhi, ylo)
  {
    hide Pow2, Wrap, Value;
    ghost var y := Value(yhi, ylo);
    ghost var r := (Value(xh, xl) * Pow2(ex - ey)) % y;
    var e := ex;
    vhi, vlo := xh, xl;
    while e > ey
      invariant ey <= e <= ex && vlo < TWO_64 && 0 < Value(vhi, vlo) < 2 * y
      invariant (Value(vhi, vlo) * Pow2(e - ey)) % y == r
    {
      var zero;
      vhi, vlo, zero := ReduceRound(vhi, vlo, yhi, ylo, e - ey);
      if zero {
        Magnitudes(0, 0);
        return 0, 0;
      }
      e := e - 1;
    }
    LastStep(Value(vhi, vlo), y, r);
    var hi, lo := Subtract(vhi, vlo, yhi, ylo);
    if hi / TWO_63 == 0 {
      vhi, vlo := hi, lo;
    }
  }

  /** The renormalising loop ends with the leading bit in place. It cannot use up the
      exponent range, because the value is a whole number of smallest numbers. */
  method Renormalise(rhi: nat, rlo: nat, ey: int, ghost units: nat) returns (vhi: nat, vlo: nat, e: int)
    requires rlo < TWO_64 && 0 < Value(rhi, rlo) < 2 * LEAD && ey + 120 >= 0
    requires Value(rhi, rlo) * Pow2(ey + 120) == units * Pow2(121)
    ensures vlo < TWO_64 && LEAD <= Value(vhi, vlo) < 2 * LEAD && 0 < e + 120 && e <= ey
    ensures Value(vhi, vlo) * Pow2(e + 120) == units * Pow2(121)
  {
    hide Pow2;
    vhi, vlo, e := rhi, rlo, ey;
    SomeUnits(Value(rhi, rlo), ey + 120, units);
    while vhi / TWO_48 == 0
      invariant vlo < TWO_64 && 0 < Value(vhi, vlo) < 2 * LEAD && 0 <= e + 120 && e <= ey
      invariant Value(vhi, vlo) * Pow2(e + 120) == units * Pow2(121)
      decreases 2 * LEAD - Value(vhi, vlo)
    {
      ExponentLeft(Value(vhi, vlo), e + 120, units);
      Doubled(vhi, vlo);
      HalvedPower(Value(vhi, vlo), e + 120);
      vhi, vlo := Wrap(2 * vhi + vlo / TWO_63), Wrap(2 * vlo);
      e := e - 1;
    }
    ExponentLeft(Value(vhi, vlo), e + 120, units);
  }

  lemma HalvedPower(v: nat, n: nat)
    requires n > 0
    ensures 2 * v * Pow2(n - 1) == v * Pow2(n)
  {
    Regroup(v, 2, Pow2(n - 1));
  }

  lemma SomeUnits(v: nat, n: nat, units: nat)
    requires v > 0 && v * Pow2(n) == units * Pow2(121)
    ensures units > 0
  {
    AtLeastOnce(v, Pow2(n));
  }

  lemma ExponentLeft(v: nat, n: nat, units: nat)
    requires 0 < v < 2 * LEAD && v * Pow2(n) == units * Pow2(121)
    ensures n > 0 && units > 0
  {
    SomeUnits(v, n, units);
    LeadIsPow2();
    AtLeastOnce(units, Pow2(121));
  }

  // Significands and exponents of finite numbers.

  /** The significand with its leading bit in place, and the exponent that goes with it;
      numbers without a leading bit are scaled by 2^120 first, which is exact. */
  method Normalise(x: LongDouble) returns (hi: nat, lo: nat, e: int)
    requires WellFormed(x) && x.Finite? && Units(x) > 0
    ensures lo < TWO_64 && LEAD <= Value(hi, lo) < 2 * LEAD && -120 < e <= MAX_EXPONENT
    ensures Value(hi, lo) * Pow2(e + 120) == Units(x) * Pow2(121)
  {
    hide Pow2;
    if x.exponent == 0 {
      hi, lo, e := x.fraction / TWO_64, x.fraction % TWO_64, 1;
      hi, lo, e := Renormalise(hi, lo, 1, x.fraction);
    } else {
      hi, lo, e := x.fraction / TWO_64 + TWO_48, x.fraction % TWO_64, x.exponent;
      assert Value(hi, lo) == LEAD + x.fraction;
      Pow2Add(e - 1, 121);
      Regroup(LEAD + x.fraction, Pow2(e - 1), Pow2(121));
    }
  }

  /** The number with this significand and exponent. A result below the normal range is
      scaled down by 2^120, which loses nothing. */
  method Assemble(negative: bool, vhi: nat, vlo: nat, e: int, ghost units: nat) returns (r: LongDouble)
    requires vlo < TWO_64 && LEAD <= Value(vhi, vlo) < 2 * LEAD && 0 < e + 120 && e <= MAX_EXPONENT
    requires Value(vhi, vlo) * Pow2(e + 120) == units * Pow2(121)
    ensures WellFormed(r) && r.Finite? && r.negative == negative && Units(r) == units
  {
    hide Pow2;
    var v := Value(vhi, vlo);
    if e <= 0 {
      ScaledDown(v, e, units);
      return Finite(negative, 0, v / Pow2(1 - e));
    }
    ScaledUp(v, e, units);
    return Finite(negative, e, v - LEAD);
  }

  lemma CancelFactor(a: nat, b: nat, p: nat)
    requires p > 0 && a * p == b * p
    ensures a == b
  {
    if a < b {
      AtLeastOnce(b - a, p);
      Distribute(b - a, a, p);
    } else if a > b {
      AtLeastOnce(a - b, p);
      Distribute(a - b, b, p);
    }
  }

  lemma ScaledUp(v: nat, e: nat, units: nat)
    requires e > 0 && v * Pow2(e + 120) == units * Pow2(121)
    ensures v * Pow2(e - 1) == units
  {
    hide Pow2;
    Pow2Add(e - 1, 121);
    Regroup(v, Pow2(e - 1), Pow2(121));
    CancelFactor(v * Pow2(e - 1), units, Pow2(121));
  }

  lemma ScaledDown(v: nat, e: int, units: nat)
    requires -120 < e <= 0 && v < 2 * LEAD && v * Pow2(e + 120) == units * Pow2(121)
    ensures v / Pow2(1 - e) == units < LEAD
  {
    var n: nat := 1 - e;
    Pow2Add(n, e + 120);
    assert Pow2(121) == Pow2(n) * Pow2(e + 120);
    Regroup(units, Pow2(n), Pow2(e + 120));
    CancelFactor(v, units * Pow2(n), Pow2(e + 120));
    DivExact(units, Pow2(n));
    Pow2Mono(1, n);
    if units >= LEAD {
      Distribute(LEAD, units - LEAD, Pow2(n));
      TwiceAtLeast(LEAD, Pow2(n));
    }
  }

  lemma TwiceAtLeast(a: nat, p: nat)
    requires p >= 2
    ensures a * p >= 2 * a
  {
    Distribute(2, p - 2, a);
  }

  /** Remainders on scaled significands are remainders of the numbers. */
  lemma RemainderOfUnits(ux: nat, uy: nat, x: nat, y: nat, ex: int, ey: int)
    requires uy > 0 && y > 0 && ex >= ey > -120
    requires x * Pow2(ex + 120) == ux * Pow2(121) && y * Pow2(ey + 120) == uy * Pow2(121)
    ensures (x * Pow2(ex - ey)) % y * Pow2(ey + 120) == ux % uy * Pow2(121)
  {
    hide Pow2;
    var p := Pow2(ey + 120);
    Pow2Add(ex - ey, ey + 120);
    Regroup(x, Pow2(ex - ey), p);
    var z := x * Pow2(ex - ey);
    assert z * p == ux * Pow2(121);
    ScaledMod(z, p, y);
    ScaledMod(ux, Pow2(121), uy);
    assert p * y == Pow2(121) * uy;
  }

  /** The larger number has the larger exponent. */
  lemma ExponentsOrdered(ux: nat, uy: nat, x: nat, y: nat, ex: int, ey: int)
    requires ux > uy && LEAD <= x < 2 * LEAD && LEAD <= y < 2 * LEAD && ex > -120 && ey > -120
    requires x * Pow2(ex + 120) == ux * Pow2(121) && y * Pow2(ey + 120) == uy * Pow2(121)
    ensures ex >= ey
  {
    if ex < ey {
      Pow2Mono(ex + 121, ey + 120);
      HalvedPower(LEAD, ex + 121);
      Below(x, 2 * LEAD, Pow2(ex + 120));
      Below(LEAD, LEAD, Pow2(ey + 120));
      ScaledMono(LEAD, y, Pow2(ex + 121), Pow2(ey + 120));
      Distribute(ux - uy, uy, Pow2(121));
      AtLeastOnce(ux - uy, Pow2(121));
    }
  }

  lemma Below(a: nat, b: nat, p: nat)
    requires a <= b
    ensures a * p <= b * p
  {
    Distribute(b - a, a, p);
  }

  lemma ScaledMono(a: nat, b: nat, p: nat, q: nat)
    requires a <= b && p <= q
    ensures a * p <= b * q
  {
    Below(a, b, p);
    Below(p, q, b);
  }

  /** The result is exact for all arguments: what is left of |x| after taking away |y| as
      often as it fits, with the sign of x. */
  method Fmodl(x: LongDouble, y: LongDouble) returns (r: LongDouble)
    requires WellFormed(x) && WellFormed(y)
    ensures WellFormed(r)
    ensures !x.Finite? || y.NaN? || (y.Finite? && Units(y) == 0) ==> r == NaN
    ensures x.Finite? && y.Infinite? ==> r == x
    ensures x.Finite? && y.Finite? && Units(y) > 0 ==>
              r.Finite? && r.negative == x.negative && Units(r) == Units(x) % Units(y)
  {
    hide Pow2, Units;
    if y.NaN? || (y.Finite? && Units(y) == 0) || !x.Finite? {
      return NaN;
    }
    if y.Infinite? {
      return x;
    }
    if Units(x) <= Units(y) {
      if Units(x) == Units(y) {
        ZeroUnits(x.negative);
        return Finite(x.negative, 0, 0);
      }
      DivUnique(Units(x), Units(y), 0, Units(x));
      return x;
    }
    r := Remainder(x, y);
  }

  method Remainder(x: LongDouble, y: LongDouble) returns (r: LongDouble)
    requires WellFormed(x) && WellFormed(y) && x.Finite? && y.Finite? && Units(x) > Units(y) > 0
    ensures WellFormed(r) && r.Finite? && r.negative == x.negative && Units(r) == Units(x) % Units(y)
  {
    hide Pow2, Units, Value, Wrap;
    var xhi, xlo, ex := Normalise(x);
    var yhi, ylo, ey := Normalise(y);
    ExponentsOrdered(Units(x), Units(y), Value(xhi, xlo), Value(yhi, ylo), ex, ey);
    RemainderOfUnits(Units(x), Units(y), Value(xhi, xlo), Value(yhi, ylo), ex, ey);
    var hi, lo := Reduce(xhi, xlo, yhi, ylo, ex, ey);
    ghost var units := Units(x) % Units(y);
    if hi == 0 && lo == 0 {
      NoUnits(units, Pow2(ey + 120));
      ZeroUnits(x.negative);
      return Finite(x.negative, 0, 0);
    }
    NotZero(hi, lo);
    var vhi, vlo, e := Renormalise(hi, lo, ey, units);
    r := Assemble(x.negative, vhi, vlo, e, units);
  }

  lemma NotZero(hi: nat, lo: nat)
    requires hi > 0 || lo > 0
    ensures Value(hi, lo) > 0
  {
  }

  lemma ZeroUnits(negative: bool)
    ensures Units(Finite(negative, 0, 0)) == 0
  {
  }

  lemma NoUnits(units: nat, p: nat)
    requires Value(0, 0) * p == units * Pow2(121)
    ensures units == 0
  {
    if units > 0 {
      AtLeastOnce(units, Pow2(121));
    }
  }
}
