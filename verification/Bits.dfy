/** Unsigned machine words as natural numbers: powers of two, bitwise operators
    given digit by digit, and the number of trailing zero bits. */
module Bits {

  const WORD_BITS: nat := 32

  function Pow2(n: nat): (r: nat)
    ensures r > 0
  {
    if n == 0 then 1 else 2 * Pow2(n - 1)
  }

  lemma {:induction false} Pow2Add(m: nat, n: nat)
    ensures Pow2(m + n) == Pow2(m) * Pow2(n)
  {
    if m == 0 {
    } else {
      Pow2Add(m - 1, n);
      assert Pow2(m + n) == 2 * Pow2(m + n - 1);
    }
  }

  lemma {:induction false} Pow2Mono(m: nat, n: nat)
    requires m <= n
    ensures Pow2(m) <= Pow2(n)
    decreases n
  {
    if m < n {
      Pow2Mono(m, n - 1);
    }
  }

  function BitOr(x: nat, y: nat): nat {
    if x == 0 then y else if y == 0 then x
    else 2 * BitOr(x / 2, y / 2) + (if x % 2 == 1 || y % 2 == 1 then 1 else 0)
  }

  function BitXor(x: nat, y: nat): nat {
    if x == 0 then y else if y == 0 then x
    else 2 * BitXor(x / 2, y / 2) + (if x % 2 != y % 2 then 1 else 0)
  }

  function BitAnd(x: nat, y: nat): nat {
    if x == 0 || y == 0 then 0
    else 2 * BitAnd(x / 2, y / 2) + (if x % 2 == 1 && y % 2 == 1 then 1 else 0)
  }

  /** Or-ing a multiple of 2^n with a number below 2^n adds them. */
  lemma {:induction false} OrDisjoint(x: nat, n: nat, y: nat)
    requires y < Pow2(n)
    ensures BitOr(x * Pow2(n), y) == x * Pow2(n) + y
  {
    if n == 0 || x == 0 || y == 0 {
    } else {
      var h := x * Pow2(n - 1);
      assert x * Pow2(n) == 2 * h;
      OrDisjoint(x, n - 1, y / 2);
    }
  }

  lemma {:induction false} OrCommutes(x: nat, y: nat)
    ensures BitOr(x, y) == BitOr(y, x)
  {
    if x > 0 && y > 0 {
      OrCommutes(x / 2, y / 2);
    }
  }

  /** The index of the lowest set bit of a nonzero number. */
  function Ctz(x: nat): (r: nat)
    requires x > 0
  {
    if x % 2 == 1 then 0 else 1 + Ctz(x / 2)
  }

  lemma {:induction false} CtzScaled(x: nat, n: nat)
    requires x % 2 == 1
    ensures x * Pow2(n) > 0 && Ctz(x * Pow2(n)) == n
  {
    if n > 0 {
      CtzScaled(x, n - 1);
      assert x * Pow2(n) == 2 * (x * Pow2(n - 1));
    }
  }

  // Multiplication facts, one step at a time.

  lemma Distribute(a: int, b: int, d: int)
    ensures (a + b) * d == a * d + b * d
  {
  }

  lemma NotNegative(a: nat, b: nat)
    ensures a * b >= 0
  {
  }

  lemma Regroup(a: int, b: int, c: int)
    ensures (a * b) * c == a * (b * c) == (a * c) * b
  {
  }

  lemma AtLeastOnce(k: int, d: int)
    requires k >= 1 && d > 0
    ensures k * d >= d
  {
  }

  /** A remainder scaled by m stays below the divisor scaled by m. */
  lemma ScaledBelow(r: int, d: int, m: int)
    requires 0 <= r < d && m > 0
    ensures 0 <= r * m && r * m + m <= d * m
  {
    AtLeastOnce(d - r, m);
    Distribute(d - r, r, m);
  }

  /** Quotient and remainder are the only ones. */
  lemma DivUnique(x: int, d: int, q: int, r: int)
    requires 0 <= r < d && x == q * d + r
    ensures x / d == q && x % d == r
  {
    var q' := x / d;
    Distribute(q' - q, q, d);
    if q' > q {
      AtLeastOnce(q' - q, d);
    } else if q' < q {
      Distribute(q - q', q', d);
      AtLeastOnce(q - q', d);
    }
  }

  lemma DivExact(q: int, d: int)
    requires d > 0
    ensures (q * d) / d == q && (q * d) % d == 0
  {
    DivUnique(q * d, d, q, 0);
  }

  lemma ModDrops(x: int, k: int, d: int)
    requires d > 0
    ensures (x + k * d) % d == x % d
    ensures (x + k * d) / d == x / d + k
  {
    Distribute(x / d, k, d);
    DivUnique(x + k * d, d, x / d + k, x % d);
  }

  lemma DivBelow(x: int, d: int, m: int)
    requires 0 <= x < d * m && d > 0
    ensures 0 <= x / d < m
  {
    if x / d >= m {
      var e := x / d - m;
      Distribute(m, e, d);
      if e > 0 {
        AtLeastOnce(e, d);
      }
    }
  }

  /** A product by m, cut at the modulus m * d. */
  lemma ScaledMod(x: nat, m: int, d: int)
    requires m > 0 && d > 0
    ensures m * d > 0 && x * m % (m * d) == (x % d) * m && x * m / (m * d) == x / d
  {
    AtLeastOnce(m, d);
    var q, r := x / d, x % d;
    Distribute(q * d, r, m);
    Regroup(q, d, m);
    ScaledBelow(r, d, m);
    DivUnique(x * m, m * d, q, r * m);
  }
}
