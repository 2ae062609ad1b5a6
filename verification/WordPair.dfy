/** The two-word bit vector of smoothsort: `p[2]` with its shifts and the search
    for the next set bit, on 32-bit words. */
module WordPair {
  import opened Bits

  const W: nat := 0x1_0000_0000

  type Word = x: int | 0 <= x < 0x1_0000_0000

  /** The number a pair of words stands for. */
  function Value(p: seq<Word>): nat
    requires |p| == 2
  {
    p[0] + W * p[1]
  }

  /** `__builtin_ctz`. The C language leaves its value at zero undefined, so that
      value is an argument. */
  function Ntz(x: nat, ctz0: nat): nat {
    if x == 0 then ctz0 else Ctz(x)
  }

  function Pntz(p: seq<Word>, ctz0: nat): nat
    requires |p| == 2
  {
    var r := Ntz((p[0] - 1) % W, ctz0);
    if r != 0 then r
    else
      var r := WORD_BITS + Ntz(p[1], ctz0);
      if r != WORD_BITS then r else 0
  }

  lemma Pow2OfWord()
    ensures Pow2(WORD_BITS) == W
  {
    assert Pow2(8) == 256;
    Pow2Add(8, 8);
    Pow2Add(16, 16);
  }

  lemma {:induction false} CtzShifted(x: nat, n: nat)
    requires x > 0
    ensures Pow2(n) * x > 0 && Ctz(Pow2(n) * x) == n + Ctz(x)
  {
    if n > 0 {
      CtzShifted(x, n - 1);
      Regroup(2, Pow2(n - 1), x);
    }
  }

  lemma WordGap(p: seq<Word>)
    requires |p| == 2 && p[0] == 1 && p[1] > 0
    ensures Ctz(Value(p) - 1) == WORD_BITS + Ctz(p[1])
  {
    Pow2OfWord();
    CtzShifted(p[1], WORD_BITS);
  }

  /** Adding a multiple of 2^n above a number keeps its lowest set bit. */
  lemma {:induction false} CtzLow(x: nat, n: nat, y: nat)
    requires 0 < x < Pow2(n)
    ensures Ctz(x + Pow2(n) * y) == Ctz(x)
  {
    Regroup(2, Pow2(n - 1), y);
    if x % 2 == 0 {
      CtzLow(x / 2, n - 1, y);
    }
  }

  /** `pntz` finds the next set bit above bit 0 exactly when it does not have to
      look at `ctz(0)`, or that happens to be right. */
  lemma PntzExact(p: seq<Word>, ctz0: nat)
    requires |p| == 2 && p[0] % 2 == 1 && Value(p) > 1
    ensures Pntz(p, ctz0) == Ctz(Value(p) - 1)
            <==> p[0] != 1 || ctz0 == WORD_BITS + Ctz(p[1]) || (ctz0 == 0 && p[1] % 2 == 0)
  {
    if p[0] == 1 {
      WordGap(p);
    } else {
      NoWordGap(p);
    }
  }

  lemma NoWordGap(p: seq<Word>)
    requires |p| == 2 && p[0] > 1
    ensures Ctz(Value(p) - 1) == Ctz(p[0] - 1)
  {
    Pow2OfWord();
    CtzLow(p[0] - 1, WORD_BITS, p[1]);
  }

  /** Where `ctz(0)` is the word size, as on WebAssembly, `pntz` is wrong when the
      next set bit lies more than one word up. */
  lemma PntzMisses()
    ensures Pntz([1, 2], WORD_BITS) == 32
    ensures Ctz(Value([1, 2]) - 1) == 33
  {
    PntzExact([1, 2], WORD_BITS);
    WordGap([1, 2]);
  }

  // Shifts of one word.

  function WordShl(x: Word, n: nat): Word {
    x * Pow2(n) % W
  }

  function WordShr(x: Word, n: nat): Word {
    if n == 0 then x else WordShr(x / 2, n - 1)
  }

  lemma {:induction false} WordShrSplits(x: Word, n: nat) returns (r: nat)
    ensures r < Pow2(n) && x == WordShr(x, n) * Pow2(n) + r
  {
    if n == 0 {
      r := 0;
    } else {
      var r' := WordShrSplits(x / 2, n - 1);
      Regroup(WordShr(x, n), 2, Pow2(n - 1));
      r := 2 * r' + x % 2;
    }
  }

  lemma WordShlKeeps(x: Word, n: nat, c: nat, r: nat)
    requires n <= WORD_BITS && x == c * Pow2(WORD_BITS - n) + r && r < Pow2(WORD_BITS - n)
    ensures WordShl(x, n) == r * Pow2(n) && x * Pow2(n) == c * W + r * Pow2(n)
    ensures r * Pow2(n) + Pow2(n) <= W
  {
    Pow2OfWord();
    Pow2Add(n, WORD_BITS - n);
    CutProduct(x, Pow2(n), Pow2(WORD_BITS - n), c, r, W);
  }

  lemma CutProduct(x: int, m: int, d: int, c: int, r: int, w: int)
    requires m > 0 && w == m * d && x == c * d + r && 0 <= r < d
    ensures w > 0 && x * m == c * w + r * m && x * m % w == r * m && r * m + m <= w
  {
    AtLeastOnce(d, m);
    Distribute(c * d, r, m);
    Regroup(c, d, m);
    ScaledBelow(r, d, m);
    DivUnique(x * m, w, c, r * m);
  }

  // Shifts of the pair.

  /** The three products that make up a scaled pair. */
  lemma ScaledPair(p0: int, p1: int, m: int, w: int, q: int, lo: int, c: int, r: int)
    requires p0 * m == q * w + lo && p1 * m == c * w + r
    ensures (p0 + w * p1) * m == lo + w * (r + q) + c * (w * w)
  {
    Distribute(p0, w * p1, m);
    Regroup(w, p1, m);
    Distribute(c * w, r, w);
    Regroup(c, w, w);
    Distribute(r, q, w);
  }

  lemma BelowSquare(lo: int, hi: int, w: int)
    requires 0 <= lo < w && 0 <= hi < w
    ensures 0 <= lo + w * hi < w * w
  {
    ScaledBelow(hi, w, w);
  }

  lemma QuotientBelow(q: nat, d: nat, r: nat, m: nat)
    requires q * d + r < m * d
    ensures q < m
  {
    if q >= m {
      Distribute(q - m, m, d);
    }
  }

  lemma ShlWords(p0: Word, p1: Word, n: nat)
    requires n < WORD_BITS
    ensures var hi := BitOr(WordShl(p1, n), WordShr(p0, WORD_BITS - n));
            hi < W && WordShl(p0, n) + W * hi == (p0 + W * p1) * Pow2(n) % (W * W)
  {
    var c, q := WordShr(p1, WORD_BITS - n), WordShr(p0, WORD_BITS - n);
    var r1 := WordShrSplits(p1, WORD_BITS - n);
    var r0 := WordShrSplits(p0, WORD_BITS - n);
    WordShlKeeps(p1, n, c, r1);
    WordShlKeeps(p0, n, q, r0);
    Pow2OfWord();
    Pow2Add(n, WORD_BITS - n);
    QuotientBelow(q, Pow2(WORD_BITS - n), r0, Pow2(n));
    OrDisjoint(r1, n, q);
    var lo, hi := WordShl(p0, n), WordShl(p1, n) + q;
    ScaledPair(p0, p1, Pow2(n), W, q, lo, c, WordShl(p1, n));
    BelowSquare(lo, hi, W);
    DivUnique((p0 + W * p1) * Pow2(n), W * W, c, lo + W * hi);
  }

  lemma ShrWords(p0: Word, p1: Word, n: nat)
    requires n < WORD_BITS
    ensures var lo := BitOr(WordShr(p0, n), WordShl(p1, WORD_BITS - n));
            lo < W && lo + W * WordShr(p1, n) == (p0 + W * p1) / Pow2(n)
  {
    var c, q := WordShr(p1, n), WordShr(p0, n);
    var r1 := WordShrSplits(p1, n);
    var r0 := WordShrSplits(p0, n);
    WordShlKeeps(p1, WORD_BITS - n, c, r1);
    Pow2OfWord();
    Pow2Add(n, WORD_BITS - n);
    var m, d := Pow2(n), Pow2(WORD_BITS - n);
    QuotientBelow(q, m, r0, d);
    OrDisjoint(r1, WORD_BITS - n, q);
    OrCommutes(q, r1 * d);
    ShrPair(p0, p1, m, d, W, q, r0, c, r1);
    DivUnique(p0 + W * p1, m, r1 * d + q + W * c, r0);
  }

  lemma ShrPair(p0: int, p1: int, m: int, d: int, w: int, q: int, r0: int, c: int, r1: int)
    requires w == m * d && p0 == q * m + r0 && p1 == c * m + r1
    ensures p0 + w * p1 == (r1 * d + q + w * c) * m + r0
  {
    Distribute(r1 * d + q, w * c, m);
    Distribute(r1 * d, q, m);
    Regroup(r1, d, m);
    Regroup(w, c, m);
    Distribute(c * m, r1, w);
  }

  // At n == 32 the C code shifts a zero word by its full width; here the zero
  // simply stays zero.

  method Shl(p: array<Word>, n: nat)
    requires p.Length == 2 && 0 < n < 2 * WORD_BITS
    modifies p
    ensures Value(p[..]) == old(Value(p[..])) * Pow2(n) % (W * W)
  {
    var n' := n;
    if n' >= WORD_BITS {
      n' := n' - WORD_BITS;
      ShlByWord(p[0], p[1], n');
      p[1] := p[0];
      p[0] := 0;
    }
    ShlWords(p[0], p[1], n');
    p[1] := BitOr(WordShl(p[1], n'), WordShr(p[0], WORD_BITS - n'));
    p[0] := WordShl(p[0], n');
  }

  method Shr(p: array<Word>, n: nat)
    requires p.Length == 2 && 0 < n < 2 * WORD_BITS
    modifies p
    ensures Value(p[..]) == old(Value(p[..])) / Pow2(n)
  {
    hide BitOr, WordShr, WordShl, Pow2;
    var n' := n;
    if n' >= WORD_BITS {
      n' := n' - WORD_BITS;
      ShrByWord(p[0], p[1], n');
      p[0] := p[1];
      p[1] := 0;
    }
    ShrWords(p[0], p[1], n');
    p[0] := BitOr(WordShr(p[0], n'), WordShl(p[1], WORD_BITS - n'));
    p[1] := WordShr(p[1], n');
  }

  lemma ShlByWord(p0: Word, p1: Word, n: nat)
    ensures (p0 + W * p1) * Pow2(n + WORD_BITS) % (W * W) == (0 + W * p0) * Pow2(n) % (W * W)
  {
    var m := Pow2(n);
    Pow2OfWord();
    Pow2Add(n, WORD_BITS);
    Distribute(p0, W * p1, m * W);
    Regroup(p0, m, W);
    Regroup(p0, W, m);
    Regroup(W * p1, m, W);
    Regroup(W, p1, m);
    Regroup(p1 * m, W, W);
    ModDrops((W * p0) * m, p1 * m, W * W);
  }

  lemma ShrByWord(p0: Word, p1: Word, n: nat)
    ensures (p0 + W * p1) / Pow2(n + WORD_BITS) == (p1 + W * 0) / Pow2(n)
  {
    var r := WordShrSplits(p1, n);
    var q, m := WordShr(p1, n), Pow2(n);
    Pow2OfWord();
    Pow2Add(n, WORD_BITS);
    DivUnique(p1, m, q, r);
    ScaledBelow(r, m, W);
    Distribute(q * m, r, W);
    Regroup(q, m, W);
    DivUnique(p0 + W * p1, m * W, q, W * r + p0);
  }
}
