/** Strings of base-10^9 digits, and what the scaling steps of the decimal scanner do to
    the number they stand for. */
module Decimal {
  import opened Bits

  const BASE: nat := 1_000_000_000
  const TWO_29: nat := 0x2000_0000

  /** Base BASE, most significant digit first. A digit may equal BASE: the upscaling loop
      leaves such digits. */
  function N(d: seq<nat>): nat {
    if d == [] then 0 else N(d[..|d| - 1]) * BASE + d[|d| - 1]
  }

  predicate Digits(d: seq<nat>) {
    forall i :: 0 <= i < |d| ==> d[i] <= BASE
  }

  function BaseTo(n: nat): (r: nat)
    ensures r > 0
  {
    if n == 0 then 1 else BaseTo(n - 1) * BASE
  }

  lemma {:induction false} NAppend(d: seq<nat>, e: seq<nat>)
    ensures N(d + e) == N(d) * BaseTo(|e|) + N(e)
  {
    if e == [] {
      assert d + e == d;
    } else {
      var m := |e| - 1;
      NAppend(d, e[..m]);
      assert (d + e)[..|d + e| - 1] == d + e[..m];
      Regroup(N(d), BaseTo(m), BASE);
      Distribute(N(d) * BaseTo(m), N(e[..m]), BASE);
    }
  }

  lemma NOne(x: nat)
    ensures N([x]) == x
  {
    assert [x][..0] == [];
  }

  lemma NCons(x: nat, e: seq<nat>)
    ensures N([x] + e) == x * BaseTo(|e|) + N(e)
  {
    NAppend([x], e);
    NOne(x);
  }

  lemma NPush(d: seq<nat>, x: nat)
    ensures N(d + [x]) == N(d) * BASE + x
  {
    assert (d + [x])[..|d|] == d;
  }

  /** A leading zero does not count. */
  lemma LeadingZero(d: seq<nat>)
    requires d != [] && d[0] == 0
    ensures N(d) == N(d[1..])
  {
    assert d == [0] + d[1..];
    NCons(0, d[1..]);
  }

  lemma BaseToAdd(m: nat, n: nat)
    ensures BaseTo(m + n) == BaseTo(m) * BaseTo(n)
  {
    if n > 0 {
      BaseToAdd(m, n - 1);
      Regroup(BaseTo(m), BaseTo(n - 1), BASE);
    }
  }

  /** A nonzero leading digit bounds the number from below. */
  lemma LeadingDigit(d: seq<nat>)
    requires d != []
    ensures N(d) >= d[0] * BaseTo(|d| - 1)
  {
    assert d == [d[0]] + d[1..];
    NCons(d[0], d[1..]);
  }

  // Dividing by a divisor of the base, from the most significant digit down.

  predicate Divisor(q: nat) {
    q > 1 && BASE % q == 0
  }

  /** What is left of a digit, carried into the place after it. */
  function CarryDown(x: nat, q: nat): nat
    requires q > 0
  {
    var share: nat, left: nat := BASE / q, x % q;
    share * left
  }

  function Div(x: nat, q: nat): nat
    requires q > 0
  {
    x / q
  }

  function QuotAt(d: seq<nat>, q: nat, i: nat): nat
    requires q > 0 && i < |d|
  {
    Div(d[i], q) + if i == 0 then 0 else CarryDown(d[i - 1], q)
  }

  /** Each digit is divided, and what is left of the digit before it comes in from above. */
  function Quot(d: seq<nat>, q: nat): (r: seq<nat>)
    requires q > 0
    ensures |r| == |d|
  {
    seq(|d|, i requires 0 <= i < |d| => QuotAt(d, q, i))
  }

  /** What is left of the last digit, in the place after it. */
  function Rest(d: seq<nat>, q: nat): nat
    requires q > 0 && d != []
  {
    CarryDown(d[|d| - 1], q)
  }

  lemma DivisorTimes(q: nat)
    requires Divisor(q)
    ensures BASE / q * q == BASE
  {
  }

  lemma {:induction false} QuotValue(d: seq<nat>, q: nat)
    requires Divisor(q) && d != []
    ensures q * N(Quot(d, q)) + d[|d| - 1] % q == N(d)
  {
    hide N;
    var n := |d| - 1;
    var x := d[n];
    var r := Quot(d, q);
    assert d == d[..n] + [x];
    NPush(d[..n], x);
    QuotLast(d, q);
    if n == 0 {
      NPush(Quot(d[..0], q), x / q);
      assert Quot(d[..0], q) == [] && d[..0] == [];
      NNothing();
    } else {
      var carry := CarryDown(d[n - 1], q);
      NPush(Quot(d[..n], q), x / q + carry);
      QuotValue(d[..n], q);
      OneQuotient(q, N(Quot(d[..n], q)), d[n - 1] % q, N(d[..n]), x);
    }
  }

  lemma NNothing()
    ensures N([]) == 0
  {
  }

  lemma QuotLast(d: seq<nat>, q: nat)
    requires q > 0 && d != []
    ensures var n := |d| - 1;
            Quot(d, q) == Quot(d[..n], q) + [d[n] / q + if n == 0 then 0 else CarryDown(d[n - 1], q)]
  {
  }

  lemma OneQuotient(q: nat, above: nat, left: nat, was: nat, x: nat)
    requires Divisor(q) && q * above + left == was
    ensures q * (above * BASE + (x / q + (BASE / q) * left)) + x % q == was * BASE + x
  {
    DivisorTimes(q);
    Distribute(q * above, left, BASE);
    Regroup(q, above, BASE);
    Regroup(q, BASE / q, left);
    var a, b, c := above * BASE, x / q, (BASE / q) * left;
    assert q * (a + (b + c)) == q * a + q * b + q * c by {
      Distribute(a, b + c, q);
      Distribute(b, c, q);
    }
    assert q * c == BASE * left by {
      assert q * (BASE / q) == BASE;
    }
  }

  lemma QuotPrefix(d: seq<nat>, q: nat, m: nat)
    requires Divisor(q) && 0 < m <= |d|
    ensures Quot(d, q)[..m] == Quot(d[..m], q) && N(Quot(d, q)[..m]) == N(d[..m]) / q
  {
    hide N, CarryDown;
    assert Quot(d, q)[..m] == Quot(d[..m], q);
    QuotValue(d[..m], q);
    hide Quot;
    DivUnique(N(d[..m]), q, N(Quot(d[..m], q)), d[m - 1] % q);
  }

  /** Nothing is lost if the rest becomes one more digit. */
  lemma QuotExact(d: seq<nat>, q: nat)
    requires Divisor(q) && d != []
    ensures q * N(Quot(d, q) + [Rest(d, q)]) == N(d) * BASE
    ensures Rest(d, q) == 0 ==> q * N(Quot(d, q)) == N(d)
  {
    var left := d[|d| - 1] % q;
    QuotValue(d, q);
    NPush(Quot(d, q), Rest(d, q));
    OneQuotient(q, N(Quot(d, q)), left, N(d), 0);
    if Rest(d, q) == 0 && left > 0 {
      DivisorTimes(q);
      AtLeastOnce(left, BASE / q);
    }
  }

  lemma RestNonzero(x: nat, q: nat)
    requires Divisor(q) && x / q == 0 && x > 0
    ensures CarryDown(x, q) > 0
  {
    DivisorTimes(q);
    AtLeastOnce(x % q, BASE / q);
  }

  lemma QuotDigits(d: seq<nat>, q: nat)
    requires Divisor(q) && Digits(d)
    ensures Digits(Quot(d, q)) && (d != [] ==> Rest(d, q) < BASE)
  {
    forall i | 0 <= i < |d|
      ensures Quot(d, q)[i] <= BASE && CarryDown(d[i], q) < BASE
    {
      QuotDigit(d[i], if i == 0 then 0 else d[i - 1], q);
      QuotDigit(0, d[i], q);
    }
  }

  lemma QuotDigit(x: nat, above: nat, q: nat)
    requires Divisor(q) && x <= BASE
    ensures x / q + CarryDown(above, q) <= BASE && CarryDown(above, q) < BASE
  {
    DivisorTimes(q);
    ScaledBelow(above % q, q, BASE / q);
    assert x / q <= BASE / q by {
      if x / q > BASE / q {
        Distribute(x / q - BASE / q, BASE / q, q);
        AtLeastOnce(x / q - BASE / q, q);
      }
    }
  }

  // Multiplying by 2^29, from the least significant digit up.

  function Carry(t: nat): nat {
    if t > BASE then t / BASE else 0
  }

  function Kept(t: nat): nat {
    if t > BASE then t % BASE else t
  }

  /** The carry that comes out of digit i and all below it. */
  function CarryFrom(d: seq<nat>, i: nat): nat
    requires i <= |d|
    decreases |d| - i
  {
    if i == |d| then 0 else Carry(d[i] * TWO_29 + CarryFrom(d, i + 1))
  }

  function UpDigit(d: seq<nat>, i: nat): nat
    requires i < |d|
  {
    Kept(d[i] * TWO_29 + CarryFrom(d, i + 1))
  }

  function Up(d: seq<nat>): (r: seq<nat>)
    ensures |r| == |d|
  {
    seq(|d|, i requires 0 <= i < |d| => UpDigit(d, i))
  }

  lemma {:induction false} CarryBound(d: seq<nat>, i: nat)
    requires Digits(d) && i <= |d|
    ensures CarryFrom(d, i) <= TWO_29
    ensures i < |d| ==> d[i] * TWO_29 + CarryFrom(d, i + 1) <= BASE * TWO_29 + TWO_29 && Up(d)[i] <= BASE
    decreases |d| - i
  {
    if i < |d| {
      CarryBound(d, i + 1);
    }
  }

  lemma {:induction false} UpValue(d: seq<nat>, i: nat)
    requires i <= |d|
    ensures CarryFrom(d, i) * BaseTo(|d| - i) + N(Up(d)[i..]) == N(d[i..]) * TWO_29
    decreases |d| - i
  {
    hide N, CarryFrom, Up, BaseTo, Carry, Kept;
    UpFrom(d, i);
    if i < |d| {
      UpValue(d, i + 1);
      var p := BaseTo(|d| - i - 1);
      var c, t := CarryFrom(d, i + 1), d[i] * TWO_29 + CarryFrom(d, i + 1);
      NCons(d[i], d[i + 1..]);
      NCons(Kept(t), Up(d)[i + 1..]);
      OneProduct(Carry(t), Kept(t), t, p);
      Distribute(d[i] * TWO_29, c, p);
      Regroup(d[i], TWO_29, p);
      Distribute(d[i] * p, N(d[i + 1..]), TWO_29);
    } else {
      NNothing();
    }
  }

  /** The rest of the digits, and how the carry into it comes about. */
  lemma UpFrom(d: seq<nat>, i: nat)
    requires i <= |d|
    ensures i == |d| ==> d[i..] == [] && Up(d)[i..] == [] && CarryFrom(d, i) == 0
    ensures i < |d| ==>
              var t := d[i] * TWO_29 + CarryFrom(d, i + 1);
              && d[i..] == [d[i]] + d[i + 1..] && Up(d)[i..] == [Kept(t)] + Up(d)[i + 1..]
              && CarryFrom(d, i) == Carry(t) && t == Carry(t) * BASE + Kept(t)
              && BaseTo(|d| - i) == BaseTo(|d| - i - 1) * BASE
  {
  }

  lemma OneProduct(carry: nat, kept: nat, t: nat, p: nat)
    requires t == carry * BASE + kept
    ensures carry * (p * BASE) + kept * p == t * p
  {
    Distribute(carry * BASE, kept, p);
    Regroup(carry, p, BASE);
    Regroup(carry, BASE, p);
  }

  lemma UpAll(d: seq<nat>)
    ensures CarryFrom(d, 0) * BaseTo(|d|) + N(Up(d)) == N(d) * TWO_29
  {
    UpValue(d, 0);
    assert d[0..] == d && Up(d)[0..] == Up(d);
  }
}
