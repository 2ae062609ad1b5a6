/** Integers in text as the C standard has them (section 7.20.1.4 of ISO/IEC 9899:1999),
    and how far the library goes along with it. */
module StrtolStandard {
  import opened Common
  import opened PrintfText
  import opened Strtol
  import PrintParse
  import UnsignedParse

  // Characters.

  const WHITE_SPACE: string := [' ', 9 as char, 10 as char, 11 as char, 12 as char, 13 as char]
  const DECIMALS: string := "0123456789"
  const LOWER_CASE: string := "abcdefghijklmnopqrstuvwxyz"
  const UPPER_CASE: string := "ABCDEFGHIJKLMNOPQRSTUVWXYZ"

  lemma WhiteSpace(c: char)
    ensures IsSpace(c) <==> c in WHITE_SPACE
  {
    assert c in WHITE_SPACE ==> exists i :: 0 <= i < 6 && WHITE_SPACE[i] == c;
    assert c == ' ' ==> WHITE_SPACE[0] == c;
    assert 9 as char <= c <= 13 as char ==> WHITE_SPACE[c as int - 8] == c;
  }

  lemma Alphabet()
    ensures forall v :: 0 <= v < 10 ==> DECIMALS[v] == '0' + v as char
    ensures forall v :: 0 <= v < 26 ==> LOWER_CASE[v] == 'a' + v as char
    ensures forall v :: 0 <= v < 26 ==> UPPER_CASE[v] == 'A' + v as char
  {
  }

  /** A letter is worth its place in the alphabet, from 10 on, in either case. */
  lemma DigitValues(c: char, v: nat)
    requires v < 36
    ensures DigitValue(c) == v
            <==> if v < 10 then c == DECIMALS[v] else c == LOWER_CASE[v - 10] || c == UPPER_CASE[v - 10]
  {
    hide DECIMALS, LOWER_CASE, UPPER_CASE;
    Alphabet();
  }

  predicate HexDigit(c: char) {
    '0' <= c <= '9' || 'a' <= c <= 'f' || 'A' <= c <= 'F'
  }

  predicate LetterX(c: char) {
    c == 'x' || c == 'X'
  }

  // The number in a text.

  /** Behind white space and a sign. */
  ghost predicate NumberAt(s: string, i: nat, negative: bool) {
    exists k :: NumberBehind(s, k, i, negative)
  }

  predicate NumberBehind(s: string, k: nat, i: nat, negative: bool) {
    && k <= i <= |s| && (forall j :: 0 <= j < k ==> s[j] in WHITE_SPACE) && (k < |s| ==> s[k] !in WHITE_SPACE)
    && (negative <==> k < |s| && s[k] == '-')
    && i == if k < |s| && (s[k] == '-' || s[k] == '+') then k + 1 else k
  }

  /** 0x is a prefix if a hexadecimal digit follows. */
  predicate HexPrefix(s: string, i: nat, base: nat) {
    (base == 0 || base == 16) && i + 2 < |s| && s[i] == '0' && LetterX(s[i + 1]) && HexDigit(s[i + 2])
  }

  function BaseAt(s: string, i: nat, base: nat): nat {
    if base != 0 then base
    else if HexPrefix(s, i, base) then 16
    else if i < |s| && s[i] == '0' then 8 else 10
  }

  function FirstDigit(s: string, i: nat, base: nat): nat {
    if HexPrefix(s, i, base) then i + 2 else i
  }

  /** As many digits as there are. */
  predicate DigitsBetween(s: string, start: nat, end: nat, base: nat) {
    && start <= end <= |s| && AllDigits(s[start..end], base) && (end < |s| ==> DigitValue(s[end]) >= base)
  }

  ghost predicate StandardNumber(s: string, base: nat, negative: bool, n: nat, end: nat) {
    exists i, e :: StandardParts(s, base, i, e, negative, n, end)
  }

  ghost predicate StandardParts(s: string, base: nat, i: nat, e: nat, negative: bool, n: nat, end: nat) {
    var start, b := FirstDigit(s, i, base), BaseAt(s, i, base);
    && NumberAt(s, i, negative) && DigitsBetween(s, start, e, b)
    && n == NumberOf(s[start..e], b) && end == if e > start then e else 0
  }

  // The library.

  /** 0x that no hexadecimal digit follows. */
  predicate BarePrefix(s: string, base: nat) {
    var i := SignEnd(s, SpaceEnd(s, 0));
    (base == 0 || base == 16) && i + 1 < |s| && s[i] == '0' && LetterX(s[i + 1]) && !HexPrefix(s, i, base)
  }

  lemma NumberIsAt(s: string)
    ensures var k := SpaceEnd(s, 0); NumberBehind(s, k, SignEnd(s, k), CharAt(s, k) == '-')
  {
    forall c: char ensures IsSpace(c) <==> c in WHITE_SPACE {
      WhiteSpace(c);
    }
  }

  lemma OnlyOneStart(s: string, k: nat, i: nat, negative: bool, l: nat, j: nat, minus: bool)
    requires NumberBehind(s, k, i, negative) && NumberBehind(s, l, j, minus)
    ensures i == j && negative == minus
  {
  }

  lemma OnlyOneEnd(s: string, start: nat, e: nat, f: nat, base: nat)
    requires DigitsBetween(s, start, e, base) && DigitsBetween(s, start, f, base)
    ensures e == f
  {
    assert forall k :: start <= k < e ==> s[start..e][k - start] == s[k];
    assert forall k :: start <= k < f ==> s[start..f][k - start] == s[k];
  }

  /** There is exactly one such number. */
  lemma OnlyOneNumber(s: string, base: nat, n: nat, m: nat, e: nat, f: nat, negative: bool, minus: bool)
    requires StandardNumber(s, base, negative, n, e) && StandardNumber(s, base, minus, m, f)
    ensures negative == minus && n == m && e == f
  {
    hide NumberBehind, DigitsBetween, NumberOf, BaseAt, FirstDigit;
    var i, x :| StandardParts(s, base, i, x, negative, n, e);
    var j, y :| StandardParts(s, base, j, y, minus, m, f);
    var k :| NumberBehind(s, k, i, negative);
    var l :| NumberBehind(s, l, j, minus);
    OnlyOneStart(s, k, i, negative, l, j, minus);
    OnlyOneEnd(s, FirstDigit(s, i, base), x, y, BaseAt(s, i, base));
  }

  /** Where the number starts, and what the library makes of it from there. */
  lemma FromStart(s: string, base: nat, start: nat, b: nat, e: nat)
    requires base <= 36
    requires PrefixEnd(s, SignEnd(s, SpaceEnd(s, 0)), base) == (start, b) && DigitsBetween(s, start, e, b)
    ensures var p := Parse(s, base); p.start == start && p.base == b && p.end == e && p.digits == s[start..e]
  {
    hide SpaceEnd, AllDigits, DigitsEnd;
    OnlyOneEnd(s, start, e, DigitsEnd(s, start, b), b);
  }

  lemma AtHexPrefix(s: string, base: nat, i: nat)
    requires base <= 36 && i == SignEnd(s, SpaceEnd(s, 0)) && HexPrefix(s, i, base)
    ensures var p := Parse(s, base);
            StandardParts(s, base, i, p.end, p.negative, NumberOf(p.digits, p.base), ScanEnd(s, base))
  {
    hide SpaceEnd, NumberOf;
    NumberIsAt(s);
  }

  lemma AtBarePrefix(s: string, base: nat, i: nat)
    requires base <= 36 && i == SignEnd(s, SpaceEnd(s, 0)) && BarePrefix(s, base)
    ensures var p := Parse(s, base);
            && StandardParts(s, base, i, i + 1, p.negative, NumberOf(p.digits, p.base), i + 1)
            && ScanEnd(s, base) == i + 2
  {
    hide SpaceEnd, NumberOf;
    NumberIsAt(s);
    assert s[i..i + 1] == "0";
    ZeroAlone(8);
    ZeroAlone(16);
    FromStart(s, base, i + 2, 16, i + 2);
    assert s[i + 2..i + 2] == "";
  }

  lemma ZeroAlone(base: nat)
    ensures NumberOf("0", base) == NumberOf("", base) == 0
  {
    NumberOfPushed("", '0', base);
    assert "" + "0" == "0";
  }

  lemma AtZero(s: string, base: nat, i: nat)
    requires base <= 36 && i == SignEnd(s, SpaceEnd(s, 0)) && LeadingZero(s, base) && i < |s|
    requires !HexPrefix(s, i, base) && !BarePrefix(s, base)
    ensures var p := Parse(s, base);
            StandardParts(s, base, i, p.end, p.negative, NumberOf(p.digits, p.base), ScanEnd(s, base))
  {
    hide SpaceEnd, NumberOf, AllDigits, NumberBehind;
    NumberIsAt(s);
    var p := Parse(s, base);
    assert s[i..p.end] == "0" + p.digits;
    UnsignedParse.ZeroInFront(p.digits, p.base);
    OneMoreInFront(p.digits, p.base);
  }

  lemma OneMoreInFront(d: string, base: nat)
    requires AllDigits(d, base) && base > 0
    ensures AllDigits("0" + d, base)
  {
  }

  lemma AtOther(s: string, base: nat, i: nat)
    requires base <= 36 && i == SignEnd(s, SpaceEnd(s, 0)) && !LeadingZero(s, base)
    ensures var p := Parse(s, base);
            StandardParts(s, base, i, p.end, p.negative, NumberOf(p.digits, p.base), ScanEnd(s, base))
  {
    hide SpaceEnd, NumberOf;
    NumberIsAt(s);
  }

  /** In every text and base the library finds the number of the standard, and stops where
      the standard does exactly if there is no 0x without a hexadecimal digit behind it. */
  lemma FindsStandardNumber(s: string, base: nat)
    requires base <= 36
    ensures var p := Parse(s, base);
            exists end :: && StandardNumber(s, base, p.negative, NumberOf(p.digits, p.base), end)
                          && (ScanEnd(s, base) == end <==> !BarePrefix(s, base))
  {
    hide NumberOf, Parse, ScanEnd, StandardParts;
    var i := SignEnd(s, SpaceEnd(s, 0));
    var end := if BarePrefix(s, base) then i + 1 else ScanEnd(s, base);
    if HexPrefix(s, i, base) {
      AtHexPrefix(s, base, i);
    } else if BarePrefix(s, base) {
      AtBarePrefix(s, base, i);
    } else if LeadingZero(s, base) && i < |s| {
      AtZero(s, base, i);
    } else {
      AtOther(s, base, i);
    }
    var p := Parse(s, base);
    assert StandardNumber(s, base, p.negative, NumberOf(p.digits, p.base), end);
  }

  /** In "0x" the standard sees the number 0 and then a letter; the library takes both. */
  lemma PrefixIsSwallowed()
    ensures exists end :: StandardNumber("0x", 16, false, 0, end) && end == 1 && ScanEnd("0x", 16) == 2
  {
    hide NumberOf;
    AtBarePrefix("0x", 16, 0);
    assert Parse("0x", 16).digits == "";
    ZeroAlone(16);
    assert StandardNumber("0x", 16, false, 0, 1);
  }
}
