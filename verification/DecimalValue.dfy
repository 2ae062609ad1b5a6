/** The exact number that a digit string, a radix position and a binary exponent stand
    for, and how the scaling steps keep it. */
module DecimalValue {
  import opened Bits
  import opened Decimal

  function RealPow(b: nat, e: int): (r: real)
    requires b > 0
    ensures r > 0.0
    decreases if e >= 0 then e else -e
  {
    if e == 0 then 1.0
    else if e > 0 then RealPow(b, e - 1) * (b as real)
    else RealPow(b, e + 1) / (b as real)
  }

  function NatPow(b: nat, k: nat): nat {
    if k == 0 then 1 else NatPow(b, k - 1) * b
  }

  lemma RealPowNext(b: nat, e: int)
    requires b > 0
    ensures RealPow(b, e + 1) == RealPow(b, e) * (b as real)
  {
  }

  lemma NatPowNext(b: nat, k: nat)
    ensures NatPow(b, k + 1) == NatPow(b, k) * b && NatPow(b, 0) == 1
  {
  }

  lemma ProductAsReal(a: nat, b: nat)
    ensures (a * b) as real == (a as real) * (b as real)
  {
  }

  lemma Associated(p: real, n: real, r: real)
    ensures p * n * r == p * (n * r)
  {
  }

  lemma {:induction false} RealPowAdd(b: nat, e: int, k: nat)
    requires b > 0
    ensures RealPow(b, e + k) == RealPow(b, e) * (NatPow(b, k) as real)
  {
    hide RealPow, NatPow;
    if k == 0 {
      NatPowNext(b, 0);
    } else {
      RealPowAdd(b, e, k - 1);
      RealPowNext(b, e + k - 1);
      NatPowNext(b, k - 1);
      ProductAsReal(NatPow(b, k - 1), b);
      Associated(RealPow(b, e), NatPow(b, k - 1) as real, b as real);
    }
  }

  /** digits * 10^(rp - 9 * count) * 2^e2: the digits as a fraction, with rp decimal
      places before the radix point. */
  function Value(d: seq<nat>, rp: int, e2: int): real {
    Scaled(N(d), rp - 9 * |d|, e2)
  }

  function Scaled(n: nat, e10: int, e2: int): real {
    (n as real) * RealPow(10, e10) * RealPow(2, e2)
  }

  /** Factors of ten and two can move between the digits and the exponents. */
  lemma Moved(n: nat, m: nat, e10: int, u: nat, e2: int, w: nat)
    requires m * NatPow(2, w) == n * NatPow(10, u)
    ensures Scaled(m, e10 - u, e2 + w) == Scaled(n, e10, e2)
  {
    hide RealPow, NatPow;
    RealPowAdd(10, e10 - u, u);
    RealPowAdd(2, e2, w);
    var t, s := RealPow(10, e10 - u), RealPow(2, e2);
    var p, q := NatPow(2, w) as real, NatPow(10, u) as real;
    assert (m as real) * p == (n as real) * q by {
      assert (m * NatPow(2, w)) as real == (m as real) * p;
      assert (n * NatPow(10, u)) as real == (n as real) * q;
    }
    Rearranged(m as real, n as real, p, q, t, s);
  }

  lemma Rearranged(m: real, n: real, p: real, q: real, t: real, s: real)
    requires m * p == n * q
    ensures m * t * (s * p) == n * (t * q) * s
  {
    assert m * t * (s * p) == (m * p) * (t * s);
    assert n * (t * q) * s == (n * q) * (t * s);
  }

  lemma NineTens()
    ensures NatPow(10, 9) == BASE && NatPow(2, 0) == 1 && NatPow(10, 0) == 1
  {
    assert NatPow(10, 3) == 1000;
    assert NatPow(10, 6) == 1_000_000;
  }

  lemma {:induction false} NatPowTwo(k: nat)
    ensures NatPow(2, k) == Pow2(k)
  {
    if k > 0 {
      NatPowTwo(k - 1);
    }
  }

  lemma TwentyNine()
    ensures NatPow(2, 29) == TWO_29 == Pow2(29)
  {
    hide Pow2;
    NatPowTwo(29);
    Sixteens();
    Pow2Add(16, 13);
    Pow2Add(8, 5);
  }

  lemma Sixteens()
    ensures Pow2(5) == 32 && Pow2(8) == 256 && Pow2(16) == 65536
  {
    assert Pow2(4) == 16;
    Pow2Add(4, 4);
    Pow2Add(8, 8);
  }

  lemma TrailingZero(d: seq<nat>, rp: int, e2: int)
    ensures Value(d + [0], rp, e2) == Value(d, rp, e2)
  {
    NPush(d, 0);
    NineTens();
    Moved(N(d), N(d + [0]), rp - 9 * |d|, 9, e2, 0);
  }

  lemma {:induction false} TrailingZeros(d: seq<nat>, r: nat, rp: int, e2: int)
    requires r <= |d| && forall i :: r <= i < |d| ==> d[i] == 0
    ensures Value(d[..r], rp, e2) == Value(d, rp, e2)
    decreases |d|
  {
    var n := |d|;
    if r < n {
      assert d == d[..n - 1] + [0];
      TrailingZero(d[..n - 1], rp, e2);
      TrailingZeros(d[..n - 1], r, rp, e2);
      assert d[..n - 1][..r] == d[..r];
    } else {
      assert d[..r] == d;
    }
  }

  lemma LeadingZeroValue(d: seq<nat>, rp: int, e2: int)
    requires d != [] && d[0] == 0
    ensures Value(d[1..], rp - 9, e2) == Value(d, rp, e2)
  {
    LeadingZero(d);
  }

  /** One round of upscaling: the carry becomes a digit in front. */
  lemma UpscaledValue(d: seq<nat>, rp: int, e2: int)
    ensures CarryFrom(d, 0) == 0 ==> Value(Up(d), rp, e2 - 29) == Value(d, rp, e2)
    ensures Value([CarryFrom(d, 0)] + Up(d), rp + 9, e2 - 29) == Value(d, rp, e2)
  {
    hide N, Up, CarryFrom, NatPow, Scaled, BaseTo;
    UpAll(d);
    NCons(CarryFrom(d, 0), Up(d));
    TwentyNine();
    NineTens();
    Moved(N([CarryFrom(d, 0)] + Up(d)), N(d), rp - 9 * |d|, 0, e2 - 29, 29);
    if CarryFrom(d, 0) == 0 {
      Moved(N(Up(d)), N(d), rp - 9 * |d|, 0, e2 - 29, 29);
    }
  }

  /** One round of downscaling by 2^sh: the rest becomes a digit behind. */
  lemma DownscaledValue(d: seq<nat>, sh: nat, rp: int, e2: int)
    requires Divisor(Pow2(sh)) && d != []
    ensures Value(Quot(d, Pow2(sh)) + [Rest(d, Pow2(sh))], rp, e2 + sh) == Value(d, rp, e2)
  {
    hide N, Quot, Rest, Pow2, NatPow, Scaled, Divisor;
    QuotExact(d, Pow2(sh));
    NineTens();
    NatPowTwo(sh);
    var m := N(Quot(d, Pow2(sh)) + [Rest(d, Pow2(sh))]);
    assert m * Pow2(sh) == N(d) * BASE;
    Moved(N(d), m, rp - 9 * |d|, 9, e2, sh);
  }

  /** Moving the radix point to a digit boundary. */
  lemma AlignedValue(d: seq<nat>, r: nat, rp: int, e2: int)
    requires 0 < r < 9 && d != [] && Divisor(NatPow(10, 9 - r)) && NatPow(10, 9 - r) * NatPow(10, r) == BASE
    ensures Value(Quot(d, NatPow(10, 9 - r)) + [Rest(d, NatPow(10, 9 - r))], rp + 9 - r, e2) == Value(d, rp, e2)
  {
    var q := NatPow(10, 9 - r);
    var m := N(Quot(d, q) + [Rest(d, q)]);
    QuotExact(d, q);
    assert q * m == N(d) * BASE == q * (N(d) * NatPow(10, r)) by {
      Regroup(q, NatPow(10, r), N(d));
    }
    Cancelled(q, m, N(d) * NatPow(10, r));
    NineTens();
    Moved(N(d), m, rp - 9 * |d|, r, e2, 0);
  }

  lemma Cancelled(q: nat, a: nat, b: nat)
    requires q > 0 && q * a == q * b
    ensures a == b
  {
    DivExact(a, q);
    DivExact(b, q);
    assert a * q == b * q;
  }

  // The whole digits: what is before the radix point.

  /** The first m digits as a number; digits that are not there are zero. */
  function Top(d: seq<nat>, m: nat): nat {
    if m <= |d| then N(d[..m]) else N(d) * BaseTo(m - |d|)
  }

  lemma TopQuot(d: seq<nat>, q: nat, m: nat)
    requires Divisor(q) && 0 < m && d != []
    ensures Top(Quot(d, q) + [Rest(d, q)], m) == Top(d, m) / q
    ensures Rest(d, q) == 0 ==> Top(Quot(d, q), m) == Top(d, m) / q
  {
    var r := Quot(d, q);
    var s := r + [Rest(d, q)];
    if m <= |d| {
      QuotPrefix(d, q, m);
      assert s[..m] == r[..m];
    } else {
      QuotExact(d, q);
      var p := BaseTo(m - |d| - 1);
      assert Top(s, m) == N(s) * p by {
        if m == |d| + 1 {
          assert s[..m] == s;
        }
      }
      Regroup(N(d), BASE, p);
      Regroup(q, N(s), p);
      assert Top(d, m) == q * (N(s) * p);
      DivExact(N(s) * p, q);
      if Rest(d, q) == 0 {
        Regroup(q, N(r), p * BASE);
        DivExact(N(r) * (p * BASE), q);
      }
    }
  }

  lemma TopLeadingZero(d: seq<nat>, m: nat)
    requires d != [] && d[0] == 0 && m > 0
    ensures Top(d[1..], m - 1) == Top(d, m)
  {
    if m <= |d| {
      assert d[..m][1..] == d[1..][..m - 1];
      LeadingZero(d[..m]);
    } else {
      LeadingZero(d);
    }
  }

  /** A leading digit that is not zero weighs in fully. */
  lemma TopAtLeast(d: seq<nat>, m: nat)
    requires d != [] && m > 0
    ensures Top(d, m) >= d[0] * BaseTo(m - 1)
  {
    if m <= |d| {
      LeadingDigit(d[..m]);
    } else {
      LeadingDigit(d);
      BaseToAdd(|d| - 1, m - |d|);
      Regroup(d[0], BaseTo(|d| - 1), BaseTo(m - |d|));
      Distribute(N(d) - d[0] * BaseTo(|d| - 1), d[0] * BaseTo(|d| - 1), BaseTo(m - |d|));
      NotNegative(N(d) - d[0] * BaseTo(|d| - 1), BaseTo(m - |d|));
    }
  }
}
