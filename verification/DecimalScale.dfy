/** The circular digit buffer of the decimal scanner: aligning the radix point, scaling up
    and scaling down, until the first four digits hold exactly 113 bits. */
module DecimalScale {
  import opened Bits
  import opened Decimal
  import opened DecimalValue

  const KMAX: nat := 2048
  const MAX_DIGITS: seq<nat> := [10384593, 717069655, 257060992, 658440191]

  function Next(i: nat): nat {
    if i + 1 == KMAX then 0 else i + 1
  }

  function Prev(i: nat): nat {
    if i == 0 then KMAX - 1 else i - 1
  }

  /** The place of digit i of a number that starts at a. */
  function Place(a: nat, i: nat): nat {
    if a + i < KMAX then a + i else a + i - KMAX
  }

  /** How many digits there are from a up to z. */
  function Span(a: nat, z: nat): nat
    requires a < KMAX && z < KMAX
  {
    if a <= z then z - a else z + KMAX - a
  }

  /** The digits from a up to z. */
  function Held(x: seq<nat>, a: nat, z: nat): (d: seq<nat>)
    requires |x| == KMAX && a < KMAX && z < KMAX
    ensures |d| == Span(a, z)
  {
    seq(Span(a, z), i requires 0 <= i < Span(a, z) => x[Place(a, i)])
  }

  lemma HeldIs(x: seq<nat>, a: nat, z: nat, d: seq<nat>)
    requires |x| == KMAX && a < KMAX && z < KMAX && |d| == Span(a, z)
    requires forall i :: 0 <= i < |d| ==> x[Place(a, i)] == d[i]
    ensures Held(x, a, z) == d
  {
  }

  /** Without its first digit. */
  lemma HeldNext(x: seq<nat>, a: nat, z: nat)
    requires |x| == KMAX && a < KMAX && z < KMAX && a != z
    ensures Held(x, Next(a), z) == Held(x, a, z)[1..]
  {
    assert forall i :: 0 <= i < Span(a, z) - 1 ==> Place(Next(a), i) == Place(a, i + 1);
  }

  /** With one more digit behind. */
  lemma HeldPushed(x: seq<nat>, a: nat, z: nat, c: nat)
    requires |x| == KMAX && a < KMAX && z < KMAX && Next(z) != a
    ensures Held(x[z := c], a, Next(z)) == Held(x, a, z) + [c]
  {
  }

  /** With one more digit in front. */
  lemma HeldPreceded(x: seq<nat>, a: nat, z: nat, c: nat)
    requires |x| == KMAX && a < KMAX && z < KMAX && Prev(a) != z
    ensures Held(x[Prev(a) := c], Prev(a), z) == [c] + Held(x, a, z)
  {
    var b := Prev(a);
    assert forall i :: 0 <= i < Span(a, z) ==> Place(b, i + 1) == Place(a, i);
    assert forall i :: 0 <= i < Span(a, z) ==> Place(a, i) != b;
  }

  // Dividing: the loop that the alignment and the downscaling share.

  /** Divides the digits by q in place. A leading digit that becomes zero is dropped. */
  method Divide(x: array<nat>, a: nat, z: nat, q: nat) returns (a2: nat, carry: nat)
    requires x.Length == KMAX && a < KMAX && z < KMAX && a != z && Divisor(q)
    requires x[a] > 0
    modifies x
    ensures var d := old(Held(x[..], a, z));
            && Held(x[..], a, z) == Quot(d, q) && carry == Rest(d, q)
            && a2 == (if Quot(d, q)[0] == 0 then Next(a) else a)
  {
    hide CarryDown, Div, Quot, QuotAt;
    ghost var d := Held(x[..], a, z);
    ghost var e := Quot(d, q);
    SecondDigit(d, q);
    var k := a;
    carry, a2 := 0, a;
    ghost var i := 0;
    while k != z
      invariant 0 <= i <= |d| && k == Place(a, i)
      invariant forall j :: 0 <= j < i ==> x[Place(a, j)] == e[j]
      invariant forall j :: i <= j < |d| ==> x[Place(a, j)] == d[j]
      invariant carry == if i == 0 then 0 else CarryDown(d[i - 1], q)
      invariant a2 == if i > 0 && e[0] == 0 then Next(a) else a
      decreases |d| - i
    {
      QuotIs(d, q, i);
      var digit := x[k];
      x[k] := Div(digit, q) + carry;
      carry := CarryDown(digit, q);
      if k == a2 && x[k] == 0 {
        a2 := Next(a2);
      }
      k := Next(k);
      i := i + 1;
    }
    HeldIs(x[..], a, z, e);
  }

  lemma QuotIs(d: seq<nat>, q: nat, i: nat)
    requires q > 0 && i < |d|
    ensures Quot(d, q)[i] == Div(d[i], q) + if i == 0 then 0 else CarryDown(d[i - 1], q)
  {
  }

  /** After a dropped leading digit the next one is not zero. */
  lemma SecondDigit(d: seq<nat>, q: nat)
    requires Divisor(q) && d != [] && d[0] > 0
    ensures |d| > 1 && Quot(d, q)[0] == 0 ==> Quot(d, q)[1] > 0
    ensures |d| == 1 && Quot(d, q)[0] == 0 ==> Rest(d, q) > 0
  {
    if Quot(d, q)[0] == 0 {
      RestNonzero(d[0], q);
    }
  }

  // Multiplying by 2^29.

  /** Digits from i on hold the product, those before are as they were. */
  predicate Worked(x: seq<nat>, a: nat, d: seq<nat>, e: seq<nat>, i: nat)
    requires |x| == KMAX && a < KMAX && |e| == |d| < KMAX
  {
    && (forall j :: i <= j < |d| ==> x[Place(a, j)] == e[j])
    && (forall j :: 0 <= j < i && j < |d| ==> x[Place(a, j)] == d[j])
  }

  lemma WorkedOne(x: seq<nat>, a: nat, d: seq<nat>, e: seq<nat>, i: nat)
    requires |x| == KMAX && a < KMAX && i < |e| == |d| < KMAX && Worked(x, a, d, e, i + 1)
    ensures x[Place(a, i)] == d[i] && Worked(x[Place(a, i) := e[i]], a, d, e, i)
  {
  }

  lemma WorkedAll(x: seq<nat>, a: nat, z: nat, d: seq<nat>, e: seq<nat>)
    requires |x| == KMAX && a < KMAX && z < KMAX && |e| == |d| < KMAX && Span(a, z) <= |d| && Worked(x, a, d, e, 0)
    ensures Held(x, a, z) == e[..Span(a, z)]
  {
  }

  /** Multiplies the digits by 2^29 in place, from the last one up. Zeros that appear at
      the end are dropped, but never the first digit. */
  method MultiplyPass(x: array<nat>, a: nat, z: nat) returns (z2: nat, carry: nat)
    requires x.Length == KMAX && a < KMAX && z < KMAX && a != z
    modifies x
    ensures var d := old(Held(x[..], a, z));
            && z2 < KMAX && 0 < Span(a, z2) <= |d| && carry == CarryFrom(d, 0)
            && Held(x[..], a, z2) == Up(d)[..Span(a, z2)]
            && forall i :: Span(a, z2) <= i < |d| ==> Up(d)[i] == 0
  {
    hide CarryFrom, Carry, Kept, Up, UpDigit, Worked;
    ghost var d := Held(x[..], a, z);
    ghost var e := Up(d);
    var k := Prev(z);
    z2, carry := z, 0;
    ghost var i: nat := |d| - 1;
    CarryEnd(d);
    WorkedNone(x[..], a, z, e);
    while true
      invariant i < |d| && k == Place(a, i) && z2 < KMAX && i < Span(a, z2) <= |d|
      invariant Worked(x[..], a, d, e, i + 1) && carry == CarryFrom(d, i + 1)
      invariant forall j :: Span(a, z2) <= j < |d| ==> e[j] == 0
      decreases i
    {
      WorkedOne(x[..], a, d, e, i);
      carry := MultiplyDigit(x, k, carry, d, i);
      if k == Prev(z2) && k != a && x[k] == 0 {
        z2 := k;
      }
      if k == a {
        break;
      }
      k := Prev(k);
      i := i - 1;
    }
    WorkedAll(x[..], a, z2, d, e);
  }

  method MultiplyDigit(x: array<nat>, k: nat, carry0: nat, ghost d: seq<nat>, ghost i: nat) returns (carry: nat)
    requires k < x.Length && i < |d| && x[k] == d[i] && carry0 == CarryFrom(d, i + 1)
    modifies x
    ensures x[..] == old(x[..])[k := Up(d)[i]] && carry == CarryFrom(d, i)
  {
    UpIs(d, i);
    var tmp := x[k] * TWO_29 + carry0;
    if tmp > BASE {
      carry, x[k] := tmp / BASE, tmp % BASE;
    } else {
      carry, x[k] := 0, tmp;
    }
  }

  lemma WorkedNone(x: seq<nat>, a: nat, z: nat, e: seq<nat>)
    requires |x| == KMAX && a < KMAX && z < KMAX && |e| == Span(a, z)
    ensures Worked(x, a, Held(x, a, z), e, Span(a, z))
  {
  }

  lemma CarryEnd(d: seq<nat>)
    ensures CarryFrom(d, |d|) == 0
  {
  }

  lemma UpIs(d: seq<nat>, i: nat)
    requires i < |d|
    ensures var t := d[i] * TWO_29 + CarryFrom(d, i + 1);
            && Up(d)[i] == (if t > BASE then t % BASE else t)
            && CarryFrom(d, i) == (if t > BASE then t / BASE else 0)
  {
  }

  /** A buffer of digits, with a leading one that is not zero and the radix point between
      two of them. */
  predicate Scalable(d: seq<nat>, rp: int) {
    d != [] && Digits(d) && d[0] > 0 && rp % 9 == 0
  }

  lemma UpscaleRound(d: seq<nat>, r: nat, rp: int, e2: int)
    requires Scalable(d, rp) && 0 < r <= |d| && forall i :: r <= i < |d| ==> Up(d)[i] == 0
    ensures var c, u := CarryFrom(d, 0), Up(d)[..r];
            && Digits(u)
            && (c == 0 ==> Value(u, rp, e2 - 29) == Value(d, rp, e2) && u[0] > d[0])
            && Value([c] + u, rp + 9, e2 - 29) == Value(d, rp, e2) && c <= TWO_29
  {
    hide Value, N;
    var c, u := CarryFrom(d, 0), Up(d)[..r];
    UpscaledValue(d, rp, e2);
    CarryBound(d, 0);
    forall i | 0 <= i < r
      ensures u[i] <= BASE
    {
      CarryBound(d, i);
    }
    UpIs(d, 0);
    TrailingZeros(Up(d), r, rp, e2 - 29);
    var v := [c] + Up(d);
    TrailingZeros(v, r + 1, rp + 9, e2 - 29);
    assert v[..r + 1] == [c] + u;
  }

  /** How many digits upscaling puts in front at most. */
  function Raised(rp: int): nat {
    if rp > 36 then 0 else (36 - rp) / 9 + 1
  }

  /** Scales up until there are four digits before the radix point and the first is large
      enough. The number stays the same unless the buffer fills up, for which it must have
      been almost full or the number very small. */
  method Upscale(x: array<nat>, a0: nat, z0: nat, rp0: int) returns (a: nat, z: nat, rp: int, e2: int, full: bool)
    requires x.Length == KMAX && a0 < KMAX && z0 < KMAX && Scalable(Held(x[..], a0, z0), rp0)
    modifies x
    ensures a < KMAX && z < KMAX
    ensures full ==> Span(a, z) == KMAX - 1 && Span(a0, z0) + Raised(rp0) >= KMAX && rp0 <= 36
    ensures !full ==>
              && Scalable(Held(x[..], a, z), rp)
              && Value(Held(x[..], a, z), rp, e2) == Value(old(Held(x[..], a0, z0)), rp0, 0)
              && (rp > 36 || (rp == 36 && x[a] >= MAX_DIGITS[0]))
              && Span(a, z) <= Span(a0, z0) + Raised(rp0) && rp <= (if rp0 > 36 then rp0 else 45)
  {
    hide Value, N, Up, CarryFrom;
    a, z, rp, e2, full := a0, z0, rp0, 0, false;
    ghost var v := Value(Held(x[..], a, z), rp, 0);
    while rp < 36 || (rp == 36 && x[a] < MAX_DIGITS[0])
      invariant a < KMAX && z < KMAX && Scalable(Held(x[..], a, z), rp) && Value(Held(x[..], a, z), rp, e2) == v
      invariant x[a] == Held(x[..], a, z)[0]
      invariant rp0 <= rp <= (if rp0 > 36 then rp0 else 45) && 9 * Span(a, z) <= 9 * Span(a0, z0) + (rp - rp0)
      decreases 36 - rp, BASE - x[a]
    {
      ghost var d := Held(x[..], a, z);
      var carry;
      z, carry := MultiplyPass(x, a, z);
      UpscaleRound(d, Span(a, z), rp, e2);
      e2 := e2 - 29;
      if carry != 0 {
        rp := rp + 9;
        if Prev(a) == z {
          full := true;
          return;
        }
        HeldPreceded(x[..], a, z, carry);
        a := Prev(a);
        x[a] := carry;
      }
    }
  }

  // Comparing with the largest 113-bit number.

  const MAX_BITS: nat := 10384593717069655257060992658440191

  function DigitOr0(d: seq<nat>, i: nat): nat {
    if i < |d| then d[i] else 0
  }

  lemma MaxIsPow2()
    ensures MAX_BITS + 1 == Pow2(113)
  {
    hide Pow2;
    Sixteens();
    Pow2Add(16, 16);
    Pow2Add(32, 16);
    Pow2Add(48, 48);
    Pow2Add(96, 16);
    One();
    Pow2Add(112, 1);
  }

  lemma One()
    ensures Pow2(1) == 2
  {
  }

  lemma SmallBaseTo()
    ensures BaseTo(0) == 1 && BaseTo(1) == BASE && BaseTo(2) == BASE * BASE && BaseTo(3) == BASE * BASE * BASE
    ensures BaseTo(4) == BASE * BASE * BASE * BASE
  {
  }

  lemma TopNext(d: seq<nat>, m: nat)
    ensures Top(d, m + 1) == Top(d, m) * BASE + DigitOr0(d, m)
  {
    if m < |d| {
      assert d[..m + 1] == d[..m] + [d[m]];
      NPush(d[..m], d[m]);
    } else {
      if m == |d| {
        assert d[..m] == d;
      }
      Regroup(N(d), BaseTo(m - |d|), BASE);
    }
  }

  lemma TopFour(d: seq<nat>)
    ensures Top(d, 4) == ((DigitOr0(d, 0) * BASE + DigitOr0(d, 1)) * BASE + DigitOr0(d, 2)) * BASE + DigitOr0(d, 3)
  {
    hide Top;
    TopNext(d, 0);
    TopNext(d, 1);
    TopNext(d, 2);
    TopNext(d, 3);
    TopNothing(d);
  }

  lemma TopNothing(d: seq<nat>)
    ensures Top(d, 0) == 0
  {
    assert d[..0] == [];
  }

  /** The scan of the first four digits stops with 4 exactly if they do not exceed the
      largest 113-bit number, even when some of them equal the base. */
  method CompareTop(x: array<nat>, a: nat, z: nat) returns (i: nat)
    requires x.Length == KMAX && a < KMAX && z < KMAX && a != z && Digits(Held(x[..], a, z))
    ensures i == 4 <==> Top(Held(x[..], a, z), 4) <= MAX_BITS
  {
    ghost var d := Held(x[..], a, z);
    TopFour(d);
    hide Top;
    i := 0;
    while i < 4
      invariant i <= 4 && i <= |d| && forall j :: 0 <= j < i ==> d[j] == MAX_DIGITS[j]
    {
      var k := Place(a, i);
      if k == z || x[k] < MAX_DIGITS[i] {
        Lower(d, i);
        return 4;
      }
      if x[k] > MAX_DIGITS[i] {
        Higher(d, i);
        return;
      }
      i := i + 1;
    }
  }

  lemma Lower(d: seq<nat>, i: nat)
    requires i < 4 && i <= |d| && Digits(d) && (forall j :: 0 <= j < i ==> d[j] == MAX_DIGITS[j])
    requires DigitOr0(d, i) < MAX_DIGITS[i]
    ensures ((DigitOr0(d, 0) * BASE + DigitOr0(d, 1)) * BASE + DigitOr0(d, 2)) * BASE + DigitOr0(d, 3) <= MAX_BITS
  {
    assert DigitOr0(d, 0) <= BASE && DigitOr0(d, 1) <= BASE && DigitOr0(d, 2) <= BASE && DigitOr0(d, 3) <= BASE;
    assert forall j :: 0 <= j < i ==> DigitOr0(d, j) == MAX_DIGITS[j];
  }

  lemma Higher(d: seq<nat>, i: nat)
    requires i < 4 && i < |d| && Digits(d) && (forall j :: 0 <= j < i ==> d[j] == MAX_DIGITS[j])
    requires d[i] > MAX_DIGITS[i]
    ensures ((DigitOr0(d, 0) * BASE + DigitOr0(d, 1)) * BASE + DigitOr0(d, 2)) * BASE + DigitOr0(d, 3) > MAX_BITS
  {
    assert forall j :: 0 <= j < i ==> DigitOr0(d, j) == MAX_DIGITS[j];
  }

  // Scaling down.

  /** The number of digits before the radix point. */
  function Whole(rp: int): nat
    requires rp >= 0
  {
    rp / 9
  }

  /** What a round of downscaling by q = 2^sh does to the digits: the leading one may go,
      one more may come at the end. */
  function Halved(d: seq<nat>, q: nat): seq<nat>
    requires q > 0 && d != []
  {
    var e := Quot(d, q) + if Rest(d, q) == 0 then [] else [Rest(d, q)];
    if e[0] == 0 then e[1..] else e
  }

  function HalvedPoint(d: seq<nat>, q: nat, rp: int): int
    requires q > 0 && d != []
  {
    if Quot(d, q)[0] == 0 then rp - 9 else rp
  }

  lemma HalvedDigits(d: seq<nat>, q: nat, rp: int)
    requires Divisor(q) && Scalable(d, rp)
    ensures Scalable(Halved(d, q), HalvedPoint(d, q, rp))
  {
    hide Quot;
    QuotDigits(d, q);
    SecondDigit(d, q);
  }

  lemma HalvedTop(d: seq<nat>, q: nat, rp: int)
    requires Divisor(q) && Scalable(d, rp) && rp > 0
    ensures HalvedPoint(d, q, rp) >= 0 && Top(Halved(d, q), Whole(HalvedPoint(d, q, rp))) == Top(d, Whole(rp)) / q
  {
    hide Quot, Rest, Top;
    var e := Quot(d, q) + if Rest(d, q) == 0 then [] else [Rest(d, q)];
    var m := Whole(rp);
    TopQuot(d, q, m);
    assert Rest(d, q) == 0 ==> e == Quot(d, q);
    if e[0] == 0 {
      TopLeadingZero(e, m);
    }
  }

  lemma HalvedValue(d: seq<nat>, sh: nat, rp: int, e2: int)
    requires Divisor(Pow2(sh)) && d != []
    ensures Value(Halved(d, Pow2(sh)), HalvedPoint(d, Pow2(sh), rp), e2 + sh) == Value(d, rp, e2)
  {
    hide Quot, Rest, Value, Pow2;
    var q := Pow2(sh);
    var e := Quot(d, q) + if Rest(d, q) == 0 then [] else [Rest(d, q)];
    DownscaledValue(d, sh, rp, e2);
    if Rest(d, q) == 0 {
      assert e == Quot(d, q);
      TrailingZero(Quot(d, q), rp, e2 + sh);
    }
    if e[0] == 0 {
      LeadingZeroValue(e, rp, e2 + sh);
    }
  }

  lemma ShiftAmounts()
    ensures Pow2(1) == 2 && Pow2(9) == 512 && Divisor(2) && Divisor(512)
  {
  }

  /** A round that is needed leaves enough before the radix point. */
  lemma EnoughLeft(d: seq<nat>, rp: int, q: nat)
    requires Scalable(d, rp) && rp >= 36 && q == (if rp > 45 then 512 else 2)
    requires rp > 36 || Top(d, 4) > MAX_BITS
    ensures Top(d, Whole(rp)) / q >= (MAX_BITS + 1) / 2
  {
    hide Top;
    var m := Whole(rp);
    SmallBaseTo();
    if rp == 36 {
    } else {
      TopAtLeast(d, m);
      AtLeastOnce(d[0], BaseTo(m - 1));
      if rp == 45 {
        assert BaseTo(m - 1) == BaseTo(4);
      } else {
        BaseToAdd(5, m - 6);
        AtLeastOnce(BaseTo(m - 6), BaseTo(5));
        assert BaseTo(5) == BaseTo(4) * BASE;
      }
    }
  }

  /** So does the upscaling before the first round. */
  lemma EnoughFirst(d: seq<nat>, rp: int)
    requires Scalable(d, rp) && (rp > 36 || (rp == 36 && d[0] >= MAX_DIGITS[0]))
    ensures Top(d, Whole(rp)) >= (MAX_BITS + 1) / 2
  {
    hide Top;
    var m := Whole(rp);
    SmallBaseTo();
    TopAtLeast(d, m);
    if rp == 36 {
      assert m == 4;
      assert d[0] * BaseTo(3) >= MAX_DIGITS[0] * BaseTo(3) by {
        Distribute(d[0] - MAX_DIGITS[0], MAX_DIGITS[0], BaseTo(3));
        NotNegative(d[0] - MAX_DIGITS[0], BaseTo(3));
      }
    } else {
      AtLeastOnce(d[0], BaseTo(m - 1));
      BaseToAdd(4, m - 5);
      AtLeastOnce(BaseTo(m - 5), BaseTo(4));
    }
  }

  /** The radix point does not move below four digits. */
  lemma StillFour(d: seq<nat>, q: nat, rp: int)
    requires Scalable(d, rp) && rp >= 36 && q == (if rp > 45 then 512 else 2)
    requires rp > 36 || Top(d, 4) > MAX_BITS
    ensures HalvedPoint(d, q, rp) >= 36
  {
    hide Top, Quot;
    if rp == 36 {
      TopFour(d);
      assert DigitOr0(d, 1) <= BASE && DigitOr0(d, 2) <= BASE && DigitOr0(d, 3) <= BASE;
      assert d[0] >= 2;
      QuotIs(d, q, 0);
    }
  }

  // How much room scaling down takes.

  lemma HalfOfMax()
    ensures (MAX_BITS + 1) / 2 == Pow2(112) && 2 * Pow2(112) == Pow2(113)
  {
    MaxIsPow2();
  }

  lemma {:induction false} TopBelow(d: seq<nat>, m: nat)
    requires Digits(d)
    ensures Top(d, m) <= Pow2(30 * m)
  {
    hide Top, Pow2;
    TopNothing(d);
    Thirty();
    if m > 0 {
      TopBelow(d, m - 1);
      TopNext(d, m - 1);
      Pow2Add(30 * (m - 1), 30);
      if m == 1 {
        Pow2Zero();
      } else {
        Pow2Mono(30, 30 * (m - 1));
      }
      ThirtyMore(Top(d, m - 1), DigitOr0(d, m - 1), Pow2(30 * (m - 1)));
    }
  }

  lemma Thirty()
    ensures Pow2(30) == 0x4000_0000
  {
    hide Pow2;
    TwentyNine();
    One();
    Pow2Add(29, 1);
  }

  lemma ThirtyMore(t: nat, digit: nat, p: nat)
    requires t <= p && digit <= BASE && (t == 0 || p >= 15) && p > 0
    ensures t * BASE + digit <= p * 0x4000_0000
  {
    Distribute(p - t, t, BASE);
    NotNegative(p - t, BASE);
  }

  lemma {:induction false} BaseToAtLeast(n: nat)
    ensures BaseTo(n) >= Pow2(29 * n)
  {
    hide Pow2;
    if n == 0 {
      Pow2Zero();
    } else {
      BaseToAtLeast(n - 1);
      Pow2Add(29 * (n - 1), 29);
      TwentyNine();
    }
  }

  lemma Pow2Zero()
    ensures Pow2(0) == 1
  {
  }

  lemma Pow2Below(m: nat, n: nat)
    requires Pow2(m) <= Pow2(n)
    ensures m <= n
  {
    if m > n {
      Pow2Mono(n + 1, m);
    }
  }

  /** After r9 rounds by 2^9 and r1 rounds by 2 on n0 digits, m0 of them before the radix
      point. */
  ghost predicate Bounded(d: seq<nat>, rp: int, t0: nat, n0: nat, m0: nat, r9: nat, r1: nat)
    requires rp >= 0
  {
    var m, t := Whole(rp), Top(d, Whole(rp));
    && t * Pow2(9 * r9 + r1) <= t0
    && (r1 > 0 ==> rp <= 45 && t * Pow2(r1) <= Pow2(150))
    && |d| + m0 <= n0 + m + r9 + r1
  }

  lemma Shifted(t: nat, q: nat, p: nat, bound: nat)
    requires q > 0 && t * p <= bound
    ensures t / q * (q * p) <= bound
  {
    var u := t / q;
    Regroup(u, q, p);
    Distribute(t - u * q, u * q, p);
    NotNegative(t - u * q, p);
  }

  /** A round adds at most one digit behind the radix point. */
  lemma HalvedSpan(d: seq<nat>, q: nat, rp: int)
    requires q > 0 && d != [] && rp >= 36
    ensures HalvedPoint(d, q, rp) >= 0
    ensures |Halved(d, q)| + Whole(rp) <= |d| + 1 + Whole(HalvedPoint(d, q, rp))
    ensures HalvedPoint(d, q, rp) <= rp
  {
    hide QuotAt, Rest;
  }

  lemma BoundedStart(d: seq<nat>, rp: int)
    requires rp >= 0
    ensures Bounded(d, rp, Top(d, Whole(rp)), |d|, Whole(rp), 0, 0)
  {
    hide Top;
    Pow2Zero();
  }

  /** A round keeps to the bounds. */
  lemma BoundedNext(d: seq<nat>, rp: int, sh: nat, t0: nat, n0: nat, m0: nat, r9: nat, r1: nat)
    requires Scalable(d, rp) && rp >= 36 && sh == (if rp > 45 then 9 else 1) && Divisor(Pow2(sh))
    requires Bounded(d, rp, t0, n0, m0, r9, r1)
    ensures HalvedPoint(d, Pow2(sh), rp) >= 0
    ensures Bounded(Halved(d, Pow2(sh)), HalvedPoint(d, Pow2(sh), rp), t0, n0, m0,
                    if sh == 9 then r9 + 1 else r9, if sh == 9 then r1 else r1 + 1)
  {
    hide Top, Pow2, Halved, HalvedPoint, Divisor, Scalable;
    var q, t := Pow2(sh), Top(d, Whole(rp));
    DigitsOf(d, rp);
    HalvedTop(d, q, rp);
    HalvedSpan(d, q, rp);
    Pow2Add(sh, 9 * r9 + r1);
    Shifted(t, q, Pow2(9 * r9 + r1), t0);
    if sh == 9 {
      assert 9 + (9 * r9 + r1) == 9 * (r9 + 1) + r1;
    } else {
      assert 1 + (9 * r9 + r1) == 9 * r9 + (r1 + 1);
      Pow2Add(1, r1);
      if r1 == 0 {
        TopBelow(d, Whole(rp));
        Pow2Mono(30 * Whole(rp), 150);
        Pow2Zero();
      }
      Shifted(t, q, Pow2(r1), Pow2(150));
    }
  }

  lemma DigitsOf(d: seq<nat>, rp: int)
    requires Scalable(d, rp)
    ensures Digits(d) && d != [] && d[0] > 0
  {
  }

  lemma Fewer(t: nat, lo: nat, r: nat, hi: nat)
    requires t >= Pow2(lo) && t * Pow2(r) <= Pow2(hi)
    ensures lo + r <= hi
  {
    hide Pow2;
    Pow2Add(lo, r);
    Distribute(t - Pow2(lo), Pow2(lo), Pow2(r));
    NotNegative(t - Pow2(lo), Pow2(r));
    Pow2Below(lo + r, hi);
  }

  /** So there are never many more digits than at the start. */
  lemma BoundedSpan(d: seq<nat>, rp: int, t0: nat, n0: nat, m0: nat, r9: nat, r1: nat)
    requires Scalable(d, rp) && rp >= 36 && Bounded(d, rp, t0, n0, m0, r9, r1) && t0 <= Pow2(30 * m0)
    requires Top(d, Whole(rp)) >= Pow2(112)
    ensures 9 * |d| <= 9 * n0 + 21 * m0 + 253
  {
    hide Top, Pow2, Scalable;
    var m, t := Whole(rp), Top(d, Whole(rp));
    DigitsOf(d, rp);
    TopAtLeast(d, m);
    BaseToAtLeast(m - 1);
    AtLeastOnce(d[0], BaseTo(m - 1));
    Fewer(t, 29 * (m - 1), 9 * r9 + r1, 30 * m0);
    if r1 > 0 {
      Fewer(t, 112, r1, 150);
    }
  }

  /** Scales down until exactly the four digits before the radix point hold a number of
      113 bits. The number stays the same unless the buffer fills up, for which there must
      have been very many digits or a very large number. */
  method Downscale(x: array<nat>, a0: nat, z0: nat, rp0: int, e20: int)
    returns (a: nat, z: nat, rp: int, e2: int, full: bool)
    requires x.Length == KMAX && a0 < KMAX && z0 < KMAX && Scalable(Held(x[..], a0, z0), rp0)
    requires rp0 > 36 || (rp0 == 36 && x[a0] >= MAX_DIGITS[0])
    modifies x
    ensures a < KMAX && z < KMAX
    ensures full ==> Span(a, z) == KMAX - 1 && 9 * Span(a0, z0) + 21 * Whole(rp0) + 253 >= 9 * (KMAX - 1)
    ensures !full ==>
              && rp == 36 && Scalable(Held(x[..], a, z), rp)
              && Value(Held(x[..], a, z), rp, e2) == Value(old(Held(x[..], a0, z0)), rp0, e20)
              && (MAX_BITS + 1) / 2 <= Top(Held(x[..], a, z), 4) <= MAX_BITS
  {
    hide Value, N, Top, Quot, Rest, Pow2, Divisor, Halved, HalvedPoint, Bounded;
    a, z, rp, e2, full := a0, z0, rp0, e20, false;
    ghost var v := Value(Held(x[..], a, z), rp, e2);
    EnoughFirst(Held(x[..], a, z), rp);
    ShiftAmounts();
    HalfOfMax();
    ghost var n0, m0, t0 := Span(a, z), Whole(rp), Top(Held(x[..], a, z), Whole(rp));
    ghost var r9, r1 := 0, 0;
    TopBelow(Held(x[..], a, z), m0);
    BoundedStart(Held(x[..], a, z), rp);
    while true
      invariant a < KMAX && z < KMAX && Scalable(Held(x[..], a, z), rp) && rp >= 36
      invariant Value(Held(x[..], a, z), rp, e2) == v
      invariant Top(Held(x[..], a, z), Whole(rp)) >= (MAX_BITS + 1) / 2
      invariant Bounded(Held(x[..], a, z), rp, t0, n0, m0, r9, r1)
      decreases Top(Held(x[..], a, z), Whole(rp))
    {
      var i := CompareTop(x, a, z);
      if i == 4 && rp == 36 {
        break;
      }
      var sh := if rp > 45 then 9 else 1;
      var q := if rp > 45 then 512 else 2;
      ghost var d := Held(x[..], a, z);
      EnoughLeft(d, rp, q);
      HalvedDigits(d, q, rp);
      HalvedTop(d, q, rp);
      HalvedValue(d, sh, rp, e2);
      StillFour(d, q, rp);
      BoundedSpan(d, rp, t0, n0, m0, r9, r1);
      BoundedNext(d, rp, sh, t0, n0, m0, r9, r1);
      r9, r1 := if sh == 9 then r9 + 1 else r9, if sh == 9 then r1 else r1 + 1;
      a, z, rp, full := DivideRound(x, a, z, q, rp);
      e2 := e2 + sh;
      if full {
        return;
      }
    }
  }

  /** One round of the downscaling loop. */
  method DivideRound(x: array<nat>, a0: nat, z0: nat, q: nat, rp0: int) returns (a: nat, z: nat, rp: int, full: bool)
    requires x.Length == KMAX && a0 < KMAX && z0 < KMAX && Scalable(Held(x[..], a0, z0), rp0) && Divisor(q)
    modifies x
    ensures a < KMAX && z < KMAX
    ensures full ==> Span(a, z) == Span(a0, z0) == KMAX - 1
    ensures !full ==>
              var d := old(Held(x[..], a0, z0));
              Held(x[..], a, z) == Halved(d, q) && rp == HalvedPoint(d, q, rp0)
  {
    hide Quot, Rest, Divisor;
    z, rp, full := z0, rp0, false;
    ghost var d := Held(x[..], a0, z0);
    assert x[a0] == d[0];
    var carry;
    SecondDigit(d, q);
    a, carry := Divide(x, a0, z, q);
    if a != a0 {
      rp := rp - 9;
      HeldNext(x[..], a0, z);
    }
    if carry != 0 {
      if Next(z) == a {
        full := true;
        return;
      }
      HeldPushed(x[..], a, z, carry);
      x[z] := carry;
      z := Next(z);
    }
  }
}
