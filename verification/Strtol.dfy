/** Parsing integers. What the scanner computes is told by functions on the text; it is
    then shown to read back everything that a `%ld` conversion prints. */
module Strtol {
  import opened Common
  import opened Bits
  import opened PrintfText

  const LONG_LIMIT: nat := 0x8000_0000
  const LLONG_LIMIT: nat := 0x8000_0000_0000_0000
  const ULLONG_MAX: nat := 0xFFFF_FFFF_FFFF_FFFF

  // The text.

  predicate IsSpace(c: char) {
    c == ' ' || 9 as char <= c <= 13 as char
  }

  /** The string ends at the first NUL or at its end. */
  function CharAt(s: string, i: nat): char {
    if i < |s| then s[i] else '\0'
  }

  /** The value of a character as a digit; 36 and more for others. */
  function DigitValue(c: char): nat {
    if '0' <= c <= '9' then c as nat - '0' as nat
    else if 'a' <= c <= 'z' then 10 + (c as nat - 'a' as nat)
    else if 'A' <= c <= 'Z' then 10 + (c as nat - 'A' as nat)
    else 36
  }

  predicate AllDigits(t: string, base: nat) {
    forall i :: 0 <= i < |t| ==> DigitValue(t[i]) < base
  }

  function NumberOf(t: string, base: nat): nat {
    if t == "" then 0 else NumberOf(t[..|t| - 1], base) * base + DigitValue(t[|t| - 1])
  }

  function SpaceEnd(s: string, i: nat): (e: nat)
    requires i <= |s|
    ensures i <= e <= |s| && (forall k :: i <= k < e ==> IsSpace(s[k])) && (e < |s| ==> !IsSpace(s[e]))
    decreases |s| - i
  {
    if i < |s| && IsSpace(s[i]) then SpaceEnd(s, i + 1) else i
  }

  function SignEnd(s: string, i: nat): (e: nat)
    requires i <= |s|
    ensures i <= e <= |s|
  {
    if CharAt(s, i) == '+' || CharAt(s, i) == '-' then (if i < |s| then i + 1 else i) else i
  }

  /** Where the digits start and which base they are in: base 0 is told from a leading 0
      or 0x, and base 16 may have the 0x as well. A leading 0 is not a digit of its own. */
  function PrefixEnd(s: string, i: nat, base: nat): (r: (nat, nat))
    requires i <= |s|
    ensures i <= r.0 <= |s|
  {
    if (base == 0 || base == 16) && CharAt(s, i) == '0' && i < |s| then
      if (CharAt(s, i + 1) == 'x' || CharAt(s, i + 1) == 'X') && i + 1 < |s| then (i + 2, 16)
      else (i + 1, if base == 0 then 8 else base)
    else (i, if base == 0 then 10 else base)
  }

  function DigitsEnd(s: string, i: nat, base: nat): (e: nat)
    requires i <= |s|
    ensures i <= e <= |s| && AllDigits(s[i..e], base) && (e < |s| ==> DigitValue(s[e]) >= base)
    decreases |s| - i
  {
    if i < |s| && DigitValue(s[i]) < base then
      var e := DigitsEnd(s, i + 1, base);
      assert s[i..e] == [s[i]] + s[i + 1..e];
      e
    else i
  }

  datatype Parts = Parts(negative: bool, digits: string, base: nat, start: nat, end: nat)

  function Parse(s: string, base: nat): (p: Parts)
    requires base <= 36
    ensures p.start <= p.end <= |s| && p.digits == s[p.start..p.end] && AllDigits(p.digits, p.base)
  {
    var sign := SpaceEnd(s, 0);
    var (start, b) := PrefixEnd(s, SignEnd(s, sign), base);
    var end := DigitsEnd(s, start, b);
    Parts(CharAt(s, sign) == '-', s[start..end], b, start, end)
  }

  /** A zero that tells the base, or may do so, and is not among the digits. */
  predicate LeadingZero(s: string, base: nat) {
    (base == 0 || base == 16) && CharAt(s, SignEnd(s, SpaceEnd(s, 0))) == '0'
  }

  /** Where a scan ends: behind the digits or the prefix if there are any, at the start
      otherwise. */
  function ScanEnd(s: string, base: nat): nat
    requires base <= 36
  {
    var p := Parse(s, base);
    if p.digits != "" || LeadingZero(s, base) then p.end else 0
  }

  // The scanner.

  datatype Errno = Unchanged | EInval | ERange

  /** Two's complement negation of a 64-bit word. */
  function Negated(y: nat, negative: bool): nat
    requires y <= ULLONG_MAX
  {
    if negative then (ULLONG_MAX - y + 1) % TWO_64 else y
  }

  /** The number, brought into the range that the limit stands for. An even limit is the
      magnitude of the smallest signed number, an odd one the largest unsigned number. */
  function Limited(n: nat, negative: bool, lim: nat): int
    requires lim > 0
  {
    if lim % 2 == 0 then
      if negative then -(AtMost(n, lim) as int) else AtMost(n, lim - 1)
    else if n > lim then lim
    else if negative then -(n as int) else n
  }

  predicate OutOfRange(n: nat, negative: bool, lim: nat) {
    if lim % 2 == 0 && !negative then n >= lim else n > lim
  }

  /** The word that the caller's type makes of a number: twice the limit for signed types,
      64 bits otherwise. */
  function WordOf(x: int, lim: nat): int
    requires lim > 0
  {
    if lim == LONG_LIMIT then x % 0x1_0000_0000 else x % TWO_64
  }

  /** Characters that fold to 'x' when bit 5 is set. */
  predicate FoldsToX(c: char) {
    c == 'x' || c == 'X'
  }

  method Strtox(s: string, base0: nat, lim: nat) returns (result: nat, end: nat, errno: Errno)
    requires lim == LONG_LIMIT || lim == LLONG_LIMIT || (lim % 2 == 1 && lim <= ULLONG_MAX)
    ensures result <= ULLONG_MAX
    ensures base0 > 36 ==> result == 0 && errno == EInval
    ensures base0 <= 36 ==>
              var p := Parse(s, base0);
              var n := NumberOf(p.digits, p.base);
              && WordOf(result, lim) == WordOf(Limited(n, p.negative, lim), lim)
              && (errno == ERange <==> OutOfRange(n, p.negative, lim)) && errno != EInval
              && end == ScanEnd(s, base0)
  {
    hide Parse, NumberOf, AllDigits, Limited, OutOfRange, LeadingZero;
    if base0 > 36 {
      return 0, 0, EInval;
    }
    var negative, base, found, i := Start(s, base0);
    var y, overflow, any;
    y, overflow, any, i := Accumulate(s, i, base);
    end := if found || any then i else 0;
    result, errno := Limit(y, overflow, negative, lim, NumberOf(Parse(s, base0).digits, base));
  }

  /** Blanks, sign and prefix. */
  method Start(s: string, base0: nat) returns (negative: bool, base: nat, found: bool, start: nat)
    requires base0 <= 36
    ensures var p := Parse(s, base0);
            && negative == p.negative && base == p.base <= 36 && start == p.start
            && p.digits == s[start..p.end] && p.end == DigitsEnd(s, start, base) && start <= p.end <= |s|
            && (found <==> LeadingZero(s, base0))
  {
    hide SpaceEnd, DigitsEnd, AllDigits;
    var i := SkipSpaces(s);
    negative, base, found := CharAt(s, i) == '-', base0, false;
    if CharAt(s, i) == '+' || CharAt(s, i) == '-' {
      i := i + 1;
    }
    if (base == 0 || base == 16) && CharAt(s, i) == '0' {
      found := true;
      i := i + 1;
      if FoldsToX(CharAt(s, i)) {
        i := i + 1;
        base := 16;
      } else if base == 0 {
        base := 8;
      }
    } else if base == 0 {
      base := 10;
    }
    start := i;
  }

  /** What becomes of the accumulated number at the end. */
  method Limit(y0: nat, overflow: bool, negative0: bool, lim: nat, ghost n: nat) returns (result: nat, errno: Errno)
    requires lim == LONG_LIMIT || lim == LLONG_LIMIT || (lim % 2 == 1 && lim <= ULLONG_MAX)
    requires y0 <= ULLONG_MAX && (overflow <==> n > ULLONG_MAX) && (!overflow ==> y0 == n)
    ensures result <= ULLONG_MAX
    ensures WordOf(result, lim) == WordOf(Limited(n, negative0, lim), lim)
    ensures (errno == ERange <==> OutOfRange(n, negative0, lim)) && errno != EInval
  {
    hide Negated, WordOf;
    var y, negative := y0, negative0;
    errno := Unchanged;
    NegatedWord(y, negative0, lim);
    NegatedWord(lim, negative0, lim);
    if overflow {
      errno := ERange;
      y := lim;
      if lim % 2 == 1 {
        negative := false;
      }
    }
    if y >= lim {
      if lim % 2 == 0 && !negative {
        return lim - 1, ERange;
      } else if y > lim {
        return lim, ERange;
      }
    }
    result := Negated(y, negative);
  }

  lemma NegatedWord(y: nat, negative: bool, lim: nat)
    requires lim == LONG_LIMIT || lim == LLONG_LIMIT || (lim % 2 == 1 && lim <= ULLONG_MAX)
    requires y <= ULLONG_MAX
    ensures Negated(y, false) == y && Negated(y, negative) <= ULLONG_MAX
    ensures WordOf(Negated(y, true), lim) == WordOf(-(y as int), lim)
    ensures lim % 2 == 0 ==> WordOf(lim, lim) == WordOf(-(lim as int), lim)
  {
    if lim == LONG_LIMIT {
      assert Negated(y, true) % 0x1_0000_0000 == (-(y as int)) % 0x1_0000_0000;
      assert LONG_LIMIT % 0x1_0000_0000 == (-(LONG_LIMIT as int)) % 0x1_0000_0000;
    } else if lim == LLONG_LIMIT {
      assert LLONG_LIMIT % TWO_64 == (-(LLONG_LIMIT as int)) % TWO_64;
    }
  }

  method SkipSpaces(s: string) returns (i: nat)
    ensures i == SpaceEnd(s, 0)
  {
    i := 0;
    while i < |s| && IsSpace(s[i])
      invariant i <= |s| && SpaceEnd(s, i) == SpaceEnd(s, 0)
    {
      i := i + 1;
    }
  }

  /** The digit loop: the number as long as it fits 64 bits, and whether it did. */
  method Accumulate(s: string, start: nat, base: nat) returns (y: nat, overflow: bool, any: bool, end: nat)
    requires start <= |s| && base <= 36
    ensures end == DigitsEnd(s, start, base) && y <= ULLONG_MAX
    ensures var n := NumberOf(s[start..end], base);
            && (overflow <==> n > ULLONG_MAX) && (!overflow ==> y == n)
            && (any <==> end > start)
  {
    hide NumberOf, AllDigits, DigitsEnd, DigitValue;
    y, overflow, any, end := 0, false, false, start;
    NoDigits(s[start..start], base);
    while end < |s| && DigitValue(s[end]) < base
      invariant start <= end <= |s| && DigitsEnd(s, end, base) == DigitsEnd(s, start, base)
      invariant y <= ULLONG_MAX && (any <==> end > start)
      invariant overflow <==> NumberOf(s[start..end], base) > ULLONG_MAX
      invariant !overflow ==> y == NumberOf(s[start..end], base)
    {
      var val := DigitValue(s[end]);
      OneMoreDigit(s, end, base);
      assert s[start..end + 1] == s[start..end] + [s[end]];
      MoreDigits(s[start..end], s[end], base);
      TooLarge(y, base, val);
      if end == start {
        NoDigits(s[start..end], base);
      }
      if y > ULLONG_MAX / base || base * y > ULLONG_MAX - val {
        overflow := true;
      } else {
        any := true;
        y := y * base + val;
      }
      end := end + 1;
    }
    OneMoreDigit(s, end, base);
  }

  lemma OneMoreDigit(s: string, i: nat, base: nat)
    requires i <= |s|
    ensures DigitsEnd(s, i, base) == if i < |s| && DigitValue(s[i]) < base then DigitsEnd(s, i + 1, base) else i
  {
  }

  lemma NoDigits(t: string, base: nat)
    requires t == ""
    ensures NumberOf(t, base) == 0
  {
  }

  lemma MoreDigits(t: string, c: char, base: nat)
    ensures NumberOf(t + [c], base) == NumberOf(t, base) * base + DigitValue(c)
    ensures base > 0 ==> NumberOf(t + [c], base) >= NumberOf(t, base)
  {
    NumberOfPushed(t, c, base);
    hide NumberOf;
    if base > 0 {
      Distribute(base - 1, 1, NumberOf(t, base));
      NotNegative(base - 1, NumberOf(t, base));
    }
  }

  lemma NumberOfPushed(t: string, c: char, base: nat)
    ensures NumberOf(t + [c], base) == NumberOf(t, base) * base + DigitValue(c)
  {
    assert (t + [c])[..|t|] == t;
  }

  /** The overflow test is exact and does not overflow itself. */
  lemma TooLarge(y: nat, base: nat, val: nat)
    requires base > 0 && y <= ULLONG_MAX && val <= ULLONG_MAX
    ensures y > ULLONG_MAX / base || base * y > ULLONG_MAX - val <==> y * base + val > ULLONG_MAX
  {
    var q := ULLONG_MAX / base;
    if y > q {
      Distribute(y - q - 1, q + 1, base);
      Distribute(q, 1, base);
      NotNegative(y - q - 1, base);
    }
  }

  /** A 32-bit word as a signed number. */
  function AsLong(w: nat): int {
    SignedOf(w, Long)
  }

  /** `strtol`: the number in the text, or the nearest one that a long can hold. */
  method Strtol(s: string, base: nat) returns (r: int, end: nat, errno: Errno)
    ensures base > 36 ==> r == 0 && errno == EInval
    ensures base <= 36 ==>
              var p := Parse(s, base);
              var n := if p.negative then -(NumberOf(p.digits, p.base) as int) else NumberOf(p.digits, p.base);
              && r == Clamped(n) && (errno == ERange <==> n != Clamped(n)) && errno != EInval
              && end == ScanEnd(s, base)
  {
    hide Parse, NumberOf;
    var word;
    word, end, errno := Strtox(s, base, LONG_LIMIT);
    r := AsLong(word % 0x1_0000_0000);
  }

  function Clamped(n: int): int {
    if n < -0x8000_0000 then -0x8000_0000 else if n > 0x7FFF_FFFF then 0x7FFF_FFFF else n
  }

  /** The value that parsing gives. */
  function LongIn(s: string, base: nat): int
    requires base <= 36
  {
    var p := Parse(s, base);
    Clamped(if p.negative then -(NumberOf(p.digits, p.base) as int) else NumberOf(p.digits, p.base))
  }
}
