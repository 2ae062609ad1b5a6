/** Parsing reads back unsigned numbers in the base that they were printed in, and the
    alternative form tells that base by itself. */
module UnsignedParse {
  import opened Common
  import opened Bits
  import opened PrintfText
  import opened PrintfFormat
  import opened Strtol
  import opened PrintParse

  /** The value that `strtoull` gives. */
  function UnsignedIn(s: string, base: nat): int
    requires base <= 36
  {
    var p := Parse(s, base);
    Limited(NumberOf(p.digits, p.base), p.negative, ULLONG_MAX)
  }

  predicate Reads(s: string, base: nat, v: nat, found: nat)
    requires base <= 36
  {
    var p := Parse(s, base);
    !p.negative && p.base == found && NumberOf(p.digits, p.base) == v
  }

  // What the scanner makes of a prefix and digits.

  lemma ParseUnsigned(s: string, k: nat, start: nat, b: nat, e: nat, base: nat)
    requires base <= 36 && k <= start <= e <= |s| && SpaceEnd(s, 0) == k && CharAt(s, k) != '-' && CharAt(s, k) != '+'
    requires PrefixEnd(s, k, base) == (start, b) && DigitsEnd(s, start, b) == e
    ensures Parse(s, base) == Parts(false, s[start..e], b, start, e)
  {
    hide SpaceEnd, DigitsEnd, AllDigits, PrefixEnd;
  }

  lemma DigitsInBase(d: string, base: Base)
    requires AllDigits(d, base)
    ensures forall i :: 0 <= i < |d| ==> !IsSpace(d[i]) && d[i] != '-' && d[i] != '+' && d[i] != 'x' && d[i] != 'X'
  {
  }

  predicate Spaces(s: string) {
    forall i :: 0 <= i < |s| ==> IsSpace(s[i])
  }

  lemma ReadsNothing(s: string, base: Base)
    requires Spaces(s)
    ensures Reads(s, base, 0, base)
  {
    hide DigitsEnd, SpaceEnd, Parse, AllDigits;
    SpaceEndIs(s, 0, |s|);
    DigitsEndIs(s, |s|, |s|, base);
    ParseUnsigned(s, |s|, |s|, base, |s|, base);
  }

  /** Digits that start at k and end before blanks, in a text without a prefix there. */
  predicate DigitsAt(s: string, k: nat, d: string, base: nat) {
    && k + |d| <= |s| && s[k..k + |d|] == d && AllDigits(d, base) && d != ""
    && (forall i :: 0 <= i < k ==> IsSpace(s[i]))
    && (k + |d| < |s| ==> s[k + |d|] == ' ')
  }

  lemma ReadsPlain(s: string, k: nat, d: string, base: Base)
    requires DigitsAt(s, k, d, base) && (base != 16 || d[0] != '0')
    ensures Reads(s, base, NumberOf(d, base), base)
  {
    hide DigitsEnd, SpaceEnd, Parse, NumberOf, AllDigits;
    DigitsInBase(d, base);
    assert s[k] == d[0];
    SpaceEndIs(s, 0, k);
    DigitsEndBehind(s, k, d, base);
    ParseUnsigned(s, k, k, base, k + |d|, base);
  }

  /** Digits up to a blank or the end are the digits that are found. */
  lemma DigitsEndBehind(s: string, k: nat, d: string, base: Base)
    requires k + |d| <= |s| && s[k..k + |d|] == d && AllDigits(d, base) && (k + |d| < |s| ==> s[k + |d|] == ' ')
    ensures DigitsEnd(s, k, base) == k + |d|
  {
    hide DigitsEnd;
    assert forall i :: k <= i < k + |d| ==> s[i] == d[i - k];
    DigitsEndIs(s, k, k + |d|, base);
  }

  /** A leading zero is taken for a part of the prefix. */
  lemma ReadsAfterZero(s: string, k: nat, d: string, base: Base, asked: nat)
    requires DigitsAt(s, k, d, base) && d[0] == '0' && ((asked == 16 && base == 16) || (asked == 0 && base == 8))
    ensures Reads(s, asked, NumberOf(d, base), base)
  {
    hide DigitsEnd, SpaceEnd, Parse, NumberOf, AllDigits;
    DigitsInBase(d, base);
    NextDigit(s, k, d, base);
    SpaceEndIs(s, 0, k);
    DigitsEndBehind(s, k + 1, d[1..], base);
    ParseUnsigned(s, k, k + 1, base, k + |d|, asked);
    ZeroInFront(d[1..], base);
    assert d == "0" + d[1..];
  }

  /** What follows the leading zero is no letter x. */
  lemma NextDigit(s: string, k: nat, d: string, base: Base)
    requires DigitsAt(s, k, d, base)
    ensures s[k] == d[0] && s[k + 1..k + |d|] == d[1..] && AllDigits(d[1..], base)
    ensures CharAt(s, k + 1) != 'x' && CharAt(s, k + 1) != 'X'
  {
    DigitsInBase(d, base);
    assert s[k..k + |d|][0] == s[k];
    if |d| > 1 {
      assert s[k..k + |d|][1] == s[k + 1];
    }
  }

  lemma ZeroInFront(d: string, base: nat)
    requires base > 0
    ensures NumberOf("0" + d, base) == NumberOf(d, base)
  {
    Empty(base);
    NumberOfPushed("", '0', base);
    assert "" + "0" == "0";
    NoWeight("0", d, base);
  }

  lemma ReadsPrefixed(s: string, k: nat, letter: char, d: string, asked: nat)
    requires k + 2 + |d| <= |s| && s[k] == '0' && s[k + 1] == letter && (letter == 'x' || letter == 'X')
    requires s[k + 2..k + 2 + |d|] == d && AllDigits(d, 16) && (asked == 0 || asked == 16)
    requires forall i :: 0 <= i < k ==> IsSpace(s[i])
    requires k + 2 + |d| < |s| ==> s[k + 2 + |d|] == ' '
    ensures Reads(s, asked, NumberOf(d, 16), 16)
  {
    hide DigitsEnd, SpaceEnd, Parse, NumberOf, AllDigits;
    SpaceEndIs(s, 0, k);
    DigitsEndBehind(s, k + 2, d, 16);
    ParseUnsigned(s, k, k + 2, 16, k + 2 + |d|, asked);
  }

  /** A letter without its zero is no number. */
  lemma ReadsNoZero(s: string, k: nat)
    requires k < |s| && (s[k] == 'x' || s[k] == 'X') && forall i :: 0 <= i < k ==> IsSpace(s[i])
    ensures Reads(s, 16, 0, 16)
  {
    hide DigitsEnd, SpaceEnd, Parse;
    SpaceEndIs(s, 0, k);
    DigitsEndIs(s, k, k, 16);
    ParseUnsigned(s, k, k, 16, k, 16);
    assert s[k..k] == "";
  }

  // What an unsigned conversion prints.

  predicate PrintsUnsigned(c: Conversion) {
    Parsed(c) && c.directive.Unsigned?
  }

  function ValueOf(c: Conversion): nat
    requires c.directive.Unsigned?
  {
    UnsignedOf(c.directive.raw, c.directive.length)
  }

  /** Blanks, prefix, zeros and digits, and blanks. */
  predicate UnsignedShape(c: Conversion, a: string, prefix: string, d: string, z: string)
    requires PrintsUnsigned(c)
  {
    && DirectiveText(c) == Laid(a, prefix, d, z) && AllBlank(a) && AllBlank(z)
    && AllDigits(d, c.directive.base) && NumberOf(d, c.directive.base) == ValueOf(c)
  }

  /** The digits and the prefix of a conversion. */
  function PlainDigits(c: Conversion): string
    requires PrintsUnsigned(c)
  {
    Digits(ValueOf(c), c.directive.base, IntegerFlags(c.directive, c.flags))
  }

  function PlainFlags(c: Conversion): Flags
    requires PrintsUnsigned(c)
  {
    ForValue(ValueOf(c), c.directive.base, IntegerFlags(c.directive, c.flags))
  }

  function PlainLength(c: Conversion): (n: nat)
    requires PrintsUnsigned(c)
    ensures n >= |PlainDigits(c)|
  {
    ZerosAndDigits(|PlainDigits(c)|, false, c.directive.base, c.precision, c.width, PlainFlags(c))
  }

  function PlainPrefix(c: Conversion): string
    requires PrintsUnsigned(c)
  {
    PrefixText(|PlainDigits(c)|, false, c.directive.base, c.precision, c.width, PlainFlags(c))
  }

  function PlainNumber(c: Conversion): string
    requires PrintsUnsigned(c)
  {
    Repeat('0', PlainLength(c) - |PlainDigits(c)|) + PlainDigits(c)
  }

  lemma PrintedUnsigned(c: Conversion) returns (a: string, z: string)
    requires PrintsUnsigned(c)
    ensures UnsignedShape(c, a, PlainPrefix(c), PlainNumber(c), z)
  {
    hide NumberOf, AllDigits, Laid, PaddedLength, Digits, UnsignedOf, Repeat, Prefix, ZerosAndDigits, PrefixText;
    var base, f := c.directive.base, IntegerFlags(c.directive, c.flags);
    PaddedWorth(ValueOf(c), base, f, PlainLength(c) - |PlainDigits(c)|);
    var number := PlainPrefix(c) + PlainNumber(c);
    assert NumberText(PlainDigits(c), false, base, c.precision, c.width, PlainFlags(c)) == "" + number;
    a, z := Around(number, c.width, f);
    LaidAround(a, PlainPrefix(c), PlainNumber(c), z);
  }

  lemma FewPlainDigits(c: Conversion)
    requires PrintsUnsigned(c)
    ensures |PlainDigits(c)| <= 22 && (PlainDigits(c) == "" ==> ValueOf(c) == 0)
  {
    hide UnsignedOf;
    DigitsFit(ValueOf(c), c.directive.base, IntegerFlags(c.directive, c.flags).uppercase);
  }

  /** The letter of a hexadecimal prefix goes in before its zero, and an explicit precision
      of 31 leaves room for the letter alone. A caller can tell from the format and value. */
  predicate LosesZero(c: Conversion)
    requires PrintsUnsigned(c)
  {
    c.directive.base == 16 && c.flags.hash && ValueOf(c) > 0 && c.flags.precision && c.precision == 31
  }

  /** Zero padding by the width stays clear of the end of the conversion buffer. */
  predicate RoomForPrefix(c: Conversion) {
    c.precision < 31 && (c.flags.left || !c.flags.zeroPad || c.flags.precision || c.width <= 32)
  }

  lemma HexPrefix(c: Conversion)
    requires PrintsUnsigned(c) && c.directive.base == 16
    ensures var letter := if c.flags.uppercase then "X" else "x";
            && (PlainPrefix(c) == "" || PlainPrefix(c) == "0" + letter || PlainPrefix(c) == letter)
            && (PlainPrefix(c) == letter <==> LosesZero(c))
            && (c.flags.hash && ValueOf(c) > 0 && RoomForPrefix(c) ==> PlainPrefix(c) == "0" + letter)
  {
    hide UnsignedOf, Digits;
    FewPlainDigits(c);
  }

  lemma OctalPrefix(c: Conversion)
    requires PrintsUnsigned(c) && c.directive.base == 8
    ensures PlainPrefix(c) == "" || PlainPrefix(c) == "0"
    ensures c.flags.hash ==> PlainPrefix(c) == "0" || (PlainNumber(c) != "" && PlainNumber(c)[0] == '0')
  {
    hide UnsignedOf, DigitsText;
    FewPlainDigits(c);
  }

  lemma DecimalPrefix(c: Conversion)
    requires PrintsUnsigned(c) && c.directive.base == 10
    ensures PlainPrefix(c) == ""
  {
    hide UnsignedOf, DigitsText;
  }

  // Round trip.

  lemma DigitsAmongBlanks(a: string, d: string, z: string, base: Base)
    requires AllBlank(a) && AllDigits(d, base) && AllBlank(z)
    ensures var s := Laid(a, "", d, z); if d == "" then Spaces(s) else DigitsAt(s, |a|, d, base)
  {
    LaidParts(a, "", d, z);
    LaidDigits(a, "", d, z);
  }

  lemma ReadsDigits(a: string, d: string, z: string, base: Base)
    requires AllBlank(a) && AllDigits(d, base) && AllBlank(z)
    ensures Reads(Laid(a, "", d, z), base, NumberOf(d, base), base)
  {
    hide AllBlank, AllDigits, Reads, Laid, DigitsAt;
    DigitsAmongBlanks(a, d, z, base);
    if d == "" {
      ReadsNothing(Laid(a, "", d, z), base);
    } else if base == 16 && d[0] == '0' {
      ReadsAfterZero(Laid(a, "", d, z), |a|, d, base, base);
    } else {
      ReadsPlain(Laid(a, "", d, z), |a|, d, base);
    }
  }

  lemma ReadsOctal(a: string, d: string, z: string)
    requires AllBlank(a) && AllDigits(d, 8) && AllBlank(z) && d != "" && d[0] == '0'
    ensures Reads(Laid(a, "", d, z), 0, NumberOf(d, 8), 8)
  {
    hide AllBlank, AllDigits, Reads, Laid, DigitsAt;
    DigitsAmongBlanks(a, d, z, 8);
    ReadsAfterZero(Laid(a, "", d, z), |a|, d, 8, 0);
  }

  lemma ReadsDecimal(a: string, d: string, z: string)
    requires AllBlank(a) && AllDigits(d, 10) && AllBlank(z) && d != "" && d[0] != '0'
    ensures Reads(Laid(a, "", d, z), 0, NumberOf(d, 10), 10)
  {
    hide AllBlank, AllDigits, Laid, Parse;
    DigitsAmongBlanks(a, d, z, 10);
    ReadsDigits(a, d, z, 10);
    SameAsDecimal(Laid(a, "", d, z), |a|, d);
  }

  /** Without a leading zero base 0 is base 10. */
  lemma SameAsDecimal(s: string, k: nat, d: string)
    requires DigitsAt(s, k, d, 10) && d[0] != '0'
    ensures Parse(s, 0) == Parse(s, 10)
  {
    hide DigitsEnd, SpaceEnd;
    DigitsInBase(d, 10);
    assert s[k] == d[0];
    SpaceEndIs(s, 0, k);
  }

  lemma ReadsHex(a: string, letter: char, d: string, z: string, asked: nat)
    requires AllBlank(a) && AllDigits(d, 16) && AllBlank(z) && (letter == 'x' || letter == 'X')
    requires asked == 0 || asked == 16
    ensures Reads(Laid(a, "0" + [letter], d, z), asked, NumberOf(d, 16), 16)
  {
    hide AllDigits, Reads;
    LaidParts(a, "0" + [letter], d, z);
    LaidDigits(a, "0" + [letter], d, z);
    ReadsPrefixed(Laid(a, "0" + [letter], d, z), |a|, letter, d, asked);
  }

  lemma ReadsLetter(a: string, letter: char, d: string, z: string)
    requires AllBlank(a) && (letter == 'x' || letter == 'X')
    ensures Reads(Laid(a, [letter], d, z), 16, 0, 16)
  {
    hide Reads;
    LaidParts(a, [letter], d, z);
    ReadsNoZero(Laid(a, [letter], d, z), |a|);
  }

  /** An octal prefix is one more digit. */
  lemma OctalNumber(a: string, prefix: string, d: string, z: string)
    requires AllDigits(d, 8) && (prefix == "" || prefix == "0")
    ensures Laid(a, prefix, d, z) == Laid(a, "", prefix + d, z)
    ensures AllDigits(prefix + d, 8) && NumberOf(prefix + d, 8) == NumberOf(d, 8)
  {
    hide NumberOf;
    assert a + prefix + d == a + "" + (prefix + d);
    if prefix == "0" {
      ZeroInFront(d, 8);
    } else {
      assert prefix + d == d;
    }
  }

  /** `%u`, `%o`, `%x` and `%X` are read back in their own base, as 64 bits and without a
      sign, whatever the flags, width, precision and argument length, exactly if the prefix
      has kept its zero. */
  lemma UnsignedIsRead(c: Conversion)
    requires PrintsUnsigned(c)
    ensures Reads(DirectiveText(c), c.directive.base, ValueOf(c), c.directive.base) <==> !LosesZero(c)
    ensures UnsignedIn(DirectiveText(c), c.directive.base) == ValueOf(c) <==> !LosesZero(c)
  {
    hide Parse, NumberOf, AllDigits, AllBlank, Laid, DirectiveText, PlainPrefix, PlainNumber, UnsignedOf;
    var a, z := PrintedUnsigned(c);
    var prefix, d := PlainPrefix(c), PlainNumber(c);
    match c.directive.base
    case 8 =>
      OctalPrefix(c);
      OctalNumber(a, prefix, d, z);
      ReadsDigits(a, prefix + d, z, 8);
    case 10 =>
      DecimalPrefix(c);
      ReadsDigits(a, d, z, 10);
    case 16 =>
      HexPrefix(c);
      var letter := if c.flags.uppercase then 'X' else 'x';
      if prefix == "" {
        ReadsDigits(a, d, z, 16);
      } else if prefix == [letter] {
        ReadsLetter(a, letter, d, z);
      } else {
        ReadsHex(a, letter, d, z, 16);
      }
  }

  /** `%#.31x` of 255 prints a lone letter before its digits, and is read as 0. */
  lemma ZeroCanBeLost()
    ensures var c := Conversion(Unsigned(255, Int, 16), Marked(31), 0, 31);
            PrintsUnsigned(c) && UnsignedIn(DirectiveText(c), 16) != 255
  {
    hide Parse, NumberOf, DirectiveText;
    UnsignedIsRead(Conversion(Unsigned(255, Int, 16), Marked(31), 0, 31));
  }

  function Marked(precision: nat): Flags {
    Flags(false, false, false, false, true, false, precision > 0, false)
  }

  /** The form of a number that says what base it is in: 0x or 0 in front, or a decimal
      without zeros in front. */
  predicate TellsBase(c: Conversion)
    requires PrintsUnsigned(c)
  {
    match c.directive.base
    case 8 => c.flags.hash
    case 10 => !c.flags.precision && (c.flags.left || !c.flags.zeroPad)
    case 16 => c.flags.hash && RoomForPrefix(c)
  }

  /** Base 0 finds the base that such a number was printed in. */
  lemma BaseIsTold(c: Conversion)
    requires PrintsUnsigned(c) && TellsBase(c) && ValueOf(c) > 0
    ensures Reads(DirectiveText(c), 0, ValueOf(c), c.directive.base)
    ensures UnsignedIn(DirectiveText(c), 0) == ValueOf(c)
  {
    hide Parse, NumberOf, AllDigits, AllBlank, Laid, DirectiveText, PlainPrefix, PlainNumber, UnsignedOf;
    var a, z := PrintedUnsigned(c);
    var prefix, d := PlainPrefix(c), PlainNumber(c);
    match c.directive.base
    case 8 =>
      OctalPrefix(c);
      OctalNumber(a, prefix, d, z);
      ReadsOctal(a, prefix + d, z);
    case 10 =>
      DecimalPrefix(c);
      PlainDecimal(c);
      ReadsDecimal(a, d, z);
    case 16 =>
      HexPrefix(c);
      ReadsHex(a, if c.flags.uppercase then 'X' else 'x', d, z, 0);
  }

  lemma PlainDecimal(c: Conversion)
    requires PrintsUnsigned(c) && c.directive.base == 10 && TellsBase(c) && ValueOf(c) > 0
    ensures PlainNumber(c) != "" && PlainNumber(c)[0] != '0'
  {
    hide UnsignedOf, DigitsText;
    DigitLetters(ValueOf(c), 10, IntegerFlags(c.directive, c.flags).uppercase);
    assert PlainLength(c) == |PlainDigits(c)|;
    assert PlainNumber(c) == PlainDigits(c);
  }
}
