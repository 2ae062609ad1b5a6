/** String routines that look at four bytes at a time. Memory is a sequence of bytes made
    of whole words, and a pointer is an index into it, so its alignment is the index
    modulo the word size. */
module WordStrings {
  import opened Common

  type byte = bv8

  const WORD: nat := 4

  /** Some byte of the word is zero, by the arithmetic of the original. */
  predicate HasZero(x: bv32) {
    ((x - 0x0101_0101) & !x & 0x8080_8080) != 0
  }

  /** The bit trick is exact: no false alarm from the borrow between bytes. */
  lemma ZeroByte(b0: byte, b1: byte, b2: byte, b3: byte)
    ensures HasZero((b0 as bv32) | ((b1 as bv32) << 8) | ((b2 as bv32) << 16) | ((b3 as bv32) << 24))
       <==> b0 == 0 || b1 == 0 || b2 == 0 || b3 == 0
  {
  }

  lemma MatchingByte(b0: byte, b1: byte, b2: byte, b3: byte, c: byte)
    ensures HasZero(((b0 as bv32) | ((b1 as bv32) << 8) | ((b2 as bv32) << 16) | ((b3 as bv32) << 24))
                    ^ (0x0101_0101 * (c as bv32)))
       <==> b0 == c || b1 == c || b2 == c || b3 == c
  {
  }

  /** The test of a word loaded from these four bytes, lowest address first. */
  predicate ZeroIn(b0: byte, b1: byte, b2: byte, b3: byte) {
    HasZero((b0 as bv32) | ((b1 as bv32) << 8) | ((b2 as bv32) << 16) | ((b3 as bv32) << 24))
  }

  /** The same for a given character, which is repeated in every byte and cancelled. */
  predicate CharIn(b0: byte, b1: byte, b2: byte, b3: byte, c: byte) {
    HasZero(((b0 as bv32) | ((b1 as bv32) << 8) | ((b2 as bv32) << 16) | ((b3 as bv32) << 24))
            ^ (0x0101_0101 * (c as bv32)))
  }

  lemma BytesIn(b0: byte, b1: byte, b2: byte, b3: byte, c: byte)
    ensures ZeroIn(b0, b1, b2, b3) <==> b0 == 0 || b1 == 0 || b2 == 0 || b3 == 0
    ensures CharIn(b0, b1, b2, b3, c) <==> b0 == c || b1 == c || b2 == c || b3 == c
  {
    hide HasZero;
    ZeroByte(b0, b1, b2, b3);
    MatchingByte(b0, b1, b2, b3, c);
  }

  predicate WordHasZero(m: seq<byte>, w: nat)
    requires w + WORD <= |m|
  {
    ZeroIn(m[w], m[w + 1], m[w + 2], m[w + 3])
  }

  predicate WordHas(m: seq<byte>, w: nat, c: byte)
    requires w + WORD <= |m|
  {
    CharIn(m[w], m[w + 1], m[w + 2], m[w + 3], c)
  }

  /** One of the four bytes at w. */
  predicate InWord(m: seq<byte>, w: nat, c: byte)
    requires w + WORD <= |m|
  {
    m[w] == c || m[w + 1] == c || m[w + 2] == c || m[w + 3] == c
  }

  /** A word passes the test exactly if the four bytes each would. */
  lemma WordScan(m: seq<byte>, w: nat, c: byte)
    requires w + WORD <= |m|
    ensures WordHasZero(m, w) <==> InWord(m, w, 0)
    ensures WordHas(m, w, c) <==> InWord(m, w, c)
  {
    hide ZeroIn, CharIn;
    BytesIn(m[w], m[w + 1], m[w + 2], m[w + 3], c);
  }

  predicate Without(m: seq<byte>, from: nat, to: nat, c: byte)
    requires from <= to <= |m|
  {
    forall i :: from <= i < to ==> m[i] != c
  }

  /** The first occurrence of a character among n bytes. */
  method Memchr(m: seq<byte>, src: nat, c: byte, n0: nat) returns (r: Option<nat>)
    requires src + n0 <= |m|
    ensures match r
            case None => Without(m, src, src + n0, c)
            case Some(i) => src <= i < src + n0 && m[i] == c && Without(m, src, i, c)
  {
    hide WordHasZero, WordHas;
    var s: nat, n: nat := src, n0;
    while s % WORD != 0 && n > 0 && m[s] != c
      invariant s + n == src + n0 && src <= s && Without(m, src, s, c)
      decreases n
    {
      s, n := s + 1, n - 1;
    }
    if n > 0 && m[s] != c {
        var w := s;
      while n >= WORD && !WordHas(m, w, c)
        invariant w + n == src + n0 && src <= w && Without(m, src, w, c)
        decreases n
      {
        WordScan(m, w, c);
        w, n := w + WORD, n - WORD;
      }
      s := w;
    }
    while n > 0 && m[s] != c
      invariant s + n == src + n0 && src <= s && Without(m, src, s, c)
      decreases n
    {
      s, n := s + 1, n - 1;
    }
    return if n > 0 then Some(s) else None;
  }

  /** A string: it starts at s and ends at the first NUL, which is at z. */
  predicate StringAt(m: seq<byte>, s: nat, z: nat) {
    s <= z < |m| && |m| % WORD == 0 && m[z] == 0 && Without(m, s, z, 0)
  }

  method Strlen(m: seq<byte>, s: nat, ghost z: nat) returns (length: nat)
    requires StringAt(m, s, z)
    ensures length == z - s
  {
    length := 0;
    while m[s + length] != 0
      invariant s + length <= z
      decreases z - (s + length)
    {
      length := length + 1;
    }
  }

  /** The first occurrence of a character in a string, or its end. The word scan may look
      at bytes behind the end, but only in the word that holds it. */
  method Strchrnul(m: seq<byte>, s0: nat, c: byte, ghost z: nat) returns (r: nat)
    requires StringAt(m, s0, z)
    ensures s0 <= r <= z && (r == z || m[r] == c) && Without(m, s0, r, c)
  {
    hide WordHasZero, WordHas;
    var s := s0;
    if c == 0 {
      var length := Strlen(m, s, z);
      return s + length;
    }
    while s % WORD != 0
      invariant s0 <= s <= z && Without(m, s0, s, c)
      decreases z - s
    {
      if m[s] == 0 || m[s] == c {
        return s;
      }
      s := s + 1;
    }
    var w := s;
    WordFits(m, w, z);
    WordScan(m, w, c);
    while !WordHasZero(m, w) && !WordHas(m, w, c)
      invariant s0 <= w <= z && w % WORD == 0 && w + WORD <= |m| && Without(m, s0, w, c)
      invariant WordHasZero(m, w) <==> InWord(m, w, 0)
      invariant WordHas(m, w, c) <==> InWord(m, w, c)
      decreases z - w
    {
      w := w + WORD;
      WordFits(m, w, z);
      WordScan(m, w, c);
    }
    s := w;
    while m[s] != 0 && m[s] != c
      invariant s0 <= s <= z && Without(m, s0, s, c)
      decreases z - s
    {
      s := s + 1;
    }
    return s;
  }

  lemma WordFits(m: seq<byte>, w: nat, z: nat)
    requires w <= z < |m| && |m| % WORD == 0 && w % WORD == 0
    ensures w + WORD <= |m|
  {
  }

  // A set of bytes as bits.

  predicate BitSet(word: bv32, i: bv32)
    requires i < 32
  {
    word & (1 << i) != 0
  }

  function WithBit(word: bv32, i: bv32): bv32
    requires i < 32
  {
    word | (1 << i)
  }

  lemma SetBitOf(word: bv32, i: bv32, j: bv32)
    requires i < 32 && j < 32
    ensures (word | (1 << i)) & (1 << j) != 0 <==> word & (1 << j) != 0 || i == j
  {
  }

  /** Setting a bit changes no other. */
  lemma SetBit(word: bv32, i: bv32, j: bv32)
    requires i < 32 && j < 32
    ensures BitSet(WithBit(word, i), j) <==> BitSet(word, j) || i == j
  {
    SetBitOf(word, i, j);
  }

  lemma ClearBit(i: bv32)
    requires i < 32
    ensures !BitSet(0, i)
  {
  }

  /** The word of the set that a byte is in, and its bit there. */
  function WordOf(b: byte): (i: nat)
    ensures i < 8
  {
    (b / 32) as nat
  }

  function BitOf(b: byte): (i: bv32)
    ensures i < 32
  {
    (b % 32) as bv32
  }

  lemma OneBitEach(b: byte, c: byte)
    ensures WordOf(b) == WordOf(c) && BitOf(b) == BitOf(c) ==> b == c
  {
    assert WordOf(b) == WordOf(c) ==> b / 32 == c / 32;
  }

  predicate Member(bits: seq<bv32>, b: byte)
    requires |bits| == 8
  {
    BitSet(bits[WordOf(b)], BitOf(b))
  }

  /** Setting the bit of b adds b to the set and nothing else. */
  lemma MemberSet(bits: seq<bv32>, b: byte, c: byte)
    requires |bits| == 8
    ensures Member(bits[WordOf(b) := WithBit(bits[WordOf(b)], BitOf(b))], c) <==> Member(bits, c) || b == c
  {
    hide BitSet, WithBit, WordOf, BitOf;
    SetBit(bits[WordOf(b)], BitOf(b), BitOf(c));
    OneBitEach(b, c);
  }

  lemma NoBits(c: byte)
    ensures !Member([0, 0, 0, 0, 0, 0, 0, 0], c)
  {
    hide BitSet, WordOf, BitOf;
    ClearBit(BitOf(c));
  }

  /** One of the characters of the string at c. */
  predicate InString(m: seq<byte>, c: nat, z: nat, b: byte)
    requires c <= z <= |m|
  {
    exists i :: c <= i < z && m[i] == b
  }

  /** The length of the part of s before any of the characters of the string at c0. */
  method Strcspn(m: seq<byte>, s0: nat, c0: nat, ghost zs: nat, ghost zc: nat) returns (length: nat)
    requires StringAt(m, s0, zs) && StringAt(m, c0, zc)
    ensures s0 + length <= zs
    ensures forall i :: s0 <= i < s0 + length ==> !InString(m, c0, zc, m[i])
    ensures s0 + length < zs ==> InString(m, c0, zc, m[s0 + length])
  {
    hide Member;
    if m[c0] == 0 || m[c0 + 1] == 0 {
      length := FewChars(m, s0, c0, zs, zc);
      return;
    }
    var bits := FillSet(m, c0, zc);
    var s := s0;
    while m[s] != 0 && !Member(bits[..], m[s])
      invariant s0 <= s <= zs
      invariant forall i :: s0 <= i < s ==> !InString(m, c0, zc, m[i])
      decreases zs - s
    {
      s := s + 1;
    }
    return s - s0;
  }

  /** At most one character to look for. */
  method FewChars(m: seq<byte>, s: nat, c: nat, ghost zs: nat, ghost zc: nat) returns (length: nat)
    requires StringAt(m, s, zs) && StringAt(m, c, zc) && (m[c] == 0 || m[c + 1] == 0)
    ensures s + length <= zs
    ensures forall i :: s <= i < s + length ==> !InString(m, c, zc, m[i])
    ensures s + length < zs ==> InString(m, c, zc, m[s + length])
  {
    var r := Strchrnul(m, s, m[c], zs);
    assert zc == c || zc == c + 1;
    if r < zs {
      assert m[c] == m[r] && zc == c + 1;
    }
    return r - s;
  }

  /** Fills the set with the characters of a string. */
  method FillSet(m: seq<byte>, c0: nat, ghost zc: nat) returns (bits: array<bv32>)
    requires StringAt(m, c0, zc)
    ensures bits.Length == 8 && forall b :: Member(bits[..], b) <==> InString(m, c0, zc, b)
  {
    hide Member, WithBit, WordOf, BitOf, InString;
    bits := new bv32[8] [0, 0, 0, 0, 0, 0, 0, 0];
    assert bits[..] == [0, 0, 0, 0, 0, 0, 0, 0];
    forall b
      ensures !Member(bits[..], b) && !InString(m, c0, c0, b)
    {
      NoBits(b);
      NothingIn(m, c0, b);
    }
    var c := c0;
    while m[c] != 0
      invariant c0 <= c <= zc
      invariant forall b :: Member(bits[..], b) <==> InString(m, c0, c, b)
      decreases zc - c
    {
      ghost var before := bits[..];
      var i, j := WordOf(m[c]), BitOf(m[c]);
      bits[i] := WithBit(bits[i], j);
      assert bits[..] == before[i := WithBit(before[i], j)];
      forall x
        ensures Member(bits[..], x) <==> InString(m, c0, c + 1, x)
      {
        MemberSet(before, m[c], x);
        OneMoreIn(m, c0, c, x);
      }
      c := c + 1;
    }
  }

  lemma NothingIn(m: seq<byte>, c: nat, b: byte)
    requires c <= |m|
    ensures !InString(m, c, c, b)
  {
  }

  lemma OneMoreIn(m: seq<byte>, c: nat, z: nat, b: byte)
    requires c <= z < |m|
    ensures InString(m, c, z + 1, b) <==> InString(m, c, z, b) || m[z] == b
  {
  }

  // Copying with padding.

  /** The source has n bytes, or ends before; its memory is made of whole words. */
  predicate Source(m: seq<byte>, s: nat, n: nat, length: nat) {
    && |m| % WORD == 0 && length <= n && s + length <= |m| && Without(m, s, s + length, 0)
    && (length < n ==> s + length < |m| && m[s + length] == 0)
  }

  /** The first k bytes are copied, and nothing outside the n bytes is changed. */
  predicate Progress(before: seq<byte>, now: seq<byte>, d: nat, m: seq<byte>, s: nat, k: nat, n: nat) {
    && k <= n && |now| == |before| && d + n <= |before| && s + k <= |m|
    && now[..d + k] == before[..d] + m[s..s + k] && now[d + n..] == before[d + n..]
  }

  lemma OneByte(before: seq<byte>, now: seq<byte>, d: nat, m: seq<byte>, s: nat, k: nat, n: nat)
    requires Progress(before, now, d, m, s, k, n) && k < n && s + k < |m|
    ensures Progress(before, now[d + k := m[s + k]], d, m, s, k + 1, n)
    ensures Progress(before, now[d + k := m[s + k]], d, m, s, k, n)
  {
    var after := now[d + k := m[s + k]];
    assert after[..d + k + 1] == now[..d + k] + [m[s + k]];
    assert m[s..s + k + 1] == m[s..s + k] + [m[s + k]];
    assert after[..d + k] == now[..d + k];
  }

  /** Memory with the string, zeros behind it up to n bytes, and nothing else changed. */
  function Padded(before: seq<byte>, d: nat, m: seq<byte>, s: nat, length: nat, n: nat): (r: seq<byte>)
    requires length <= n && d + n <= |before| && s + length <= |m|
    ensures |r| == |before|
    ensures forall i :: 0 <= i < |r| ==>
              r[i] == if d <= i < d + length then m[s + i - d] else if d <= i < d + n then 0 else before[i]
  {
    before[..d] + m[s..s + length] + seq(n - length, _ => 0) + before[d + n..]
  }

  /** The loop that copies byte by byte: to the end of the string, or only until the
      source is aligned. A NUL is copied but not counted. */
  method CopyBytes(memory: array<byte>, d: nat, m: seq<byte>, s: nat, n: nat, k0: nat, toBoundary: bool,
                   ghost before: seq<byte>, ghost length: nat) returns (k: nat)
    requires Progress(before, memory[..], d, m, s, k0, n) && Source(m, s, n, length) && k0 <= length
    modifies memory
    ensures Progress(before, memory[..], d, m, s, k, n) && k <= length
    ensures k == length || (toBoundary && (s + k) % WORD == 0)
  {
    k := k0;
    while (!toBoundary || (s + k) % WORD != 0) && k < n
      invariant Progress(before, memory[..], d, m, s, k, n) && k <= length
      decreases n - k
    {
      OneByte(before, memory[..], d, m, s, k, n);
      memory[d + k] := m[s + k];
      if memory[d + k] == 0 {
        return;
      }
      k := k + 1;
    }
  }

  /** The loop that copies word by word while no word holds a NUL. */
  method CopyWords(memory: array<byte>, d: nat, m: seq<byte>, s: nat, n: nat, k0: nat,
                   ghost before: seq<byte>, ghost length: nat) returns (k: nat)
    requires Progress(before, memory[..], d, m, s, k0, n) && Source(m, s, n, length) && k0 <= length
    requires (s + k0) % WORD == 0
    modifies memory
    ensures Progress(before, memory[..], d, m, s, k, n) && k <= length
  {
    hide WordHasZero, Progress, InWord;
    k := k0;
    Bounds(before, memory[..], d, m, s, k, n);
    while true
      invariant Progress(before, memory[..], d, m, s, k, n) && k <= length && (s + k) % WORD == 0
      decreases n - k
    {
      Bounds(before, memory[..], d, m, s, k, n);
      if n - k < WORD {
        return;
      }
      SourceWord(m, s, n, length, k);
      if WordHasZero(m, s + k) {
        return;
      }
      WordScan(m, s + k, 0);
      NoZeroInWord(m, s, n, length, k);
      ghost var now := memory[..];
      memory[d + k], memory[d + k + 1], memory[d + k + 2], memory[d + k + 3] :=
        m[s + k], m[s + k + 1], m[s + k + 2], m[s + k + 3];
      FourBytes(before, now, memory[..], d, m, s, k, n);
      k := k + WORD;
    }
  }

  lemma Bounds(before: seq<byte>, now: seq<byte>, d: nat, m: seq<byte>, s: nat, k: nat, n: nat)
    requires Progress(before, now, d, m, s, k, n)
    ensures k <= n && d + n <= |now| == |before| && s + k <= |m|
  {
  }

  lemma SourceWord(m: seq<byte>, s: nat, n: nat, length: nat, k: nat)
    requires Source(m, s, n, length) && k <= length && k + WORD <= n && (s + k) % WORD == 0
    ensures s + k + WORD <= |m|
  {
    if length < n {
      WordFits(m, s + k, s + length);
    }
  }

  lemma NoZeroInWord(m: seq<byte>, s: nat, n: nat, length: nat, k: nat)
    requires Source(m, s, n, length) && k <= length && k + WORD <= n && s + k + WORD <= |m| && !InWord(m, s + k, 0)
    ensures k + WORD <= length
  {
    assert length < n ==> m[s + length] == 0;
  }

  lemma FourBytes(before: seq<byte>, now: seq<byte>, after: seq<byte>, d: nat, m: seq<byte>, s: nat, k: nat, n: nat)
    requires Progress(before, now, d, m, s, k, n) && k + WORD <= n && s + k + WORD <= |m|
    requires after == now[d + k := m[s + k]][d + k + 1 := m[s + k + 1]]
                         [d + k + 2 := m[s + k + 2]][d + k + 3 := m[s + k + 3]]
    ensures Progress(before, after, d, m, s, k + WORD, n)
  {
    hide Progress;
    Bounds(before, now, d, m, s, k, n);
    OneByte(before, now, d, m, s, k, n);
    var a := now[d + k := m[s + k]];
    OneByte(before, a, d, m, s, k + 1, n);
    var b := a[d + k + 1 := m[s + k + 1]];
    OneByte(before, b, d, m, s, k + 2, n);
    OneByte(before, b[d + k + 2 := m[s + k + 2]], d, m, s, k + 3, n);
  }

  /** Copies a string of at most n bytes and pads it with zeros to exactly n. The result
      points at the first zero, or behind the last byte. */
  method Stpncpy(memory: array<byte>, d: nat, m: seq<byte>, s: nat, n: nat, ghost length: nat) returns (r: nat)
    requires d + n <= memory.Length && Source(m, s, n, length)
    modifies memory
    ensures r == d + length && memory[..] == Padded(old(memory[..]), d, m, s, length, n)
  {
    ghost var before := memory[..];
    var k: nat := 0;
    assert m[s..s] == [] && before[..d] + [] == before[..d];
    var tail := false;
    if s % WORD == d % WORD {
      k := CopyBytes(memory, d, m, s, n, 0, true, before, length);
      if k == n || m[s + k] == 0 {
        tail := true;
      } else {
        k := CopyWords(memory, d, m, s, n, k, before, length);
      }
    }
    if !tail {
      k := CopyBytes(memory, d, m, s, n, k, false, before, length);
    }
    assert k == length;
    ghost var now := memory[..];
    forall i | d + k <= i < d + n {
      memory[i] := 0;
    }
    PaddedIs(before, now, memory[..], d, m, s, length, n);
    return d + k;
  }

  lemma PaddedIs(before: seq<byte>, now: seq<byte>, after: seq<byte>, d: nat, m: seq<byte>, s: nat, length: nat, n: nat)
    requires Progress(before, now, d, m, s, length, n) && |after| == |now|
    requires forall i :: 0 <= i < |now| ==> after[i] == if d + length <= i < d + n then 0 else now[i]
    ensures after == Padded(before, d, m, s, length, n)
  {
    assert after[..d + length] == now[..d + length];
    assert after[d + length..d + n] == seq(n - length, _ => 0);
    assert after[d + n..] == now[d + n..];
    assert after == after[..d + length] + after[d + length..d + n] + after[d + n..];
  }
}
