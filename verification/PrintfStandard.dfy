/** Integer conversions as the C standard has them (section 7.19.6.1 of ISO/IEC 9899:1999),
    and how far the library goes along with it. */
module PrintfStandard {
  import opened Common
  import opened Bits
  import opened PrintfText
  import opened PrintParse
  import PrintfFormat
  import Strtol

  function Zeros(n: int): string {
    Repeat('0', n)
  }

  predicate IntegerConversion(c: Conversion) {
    Parsed(c) && (c.directive.Signed? || c.directive.Unsigned?)
  }

  function BaseOf(c: Conversion): Base
    requires IntegerConversion(c)
  {
    if c.directive.Signed? then 10 else c.directive.base
  }

  function Number(c: Conversion): int
    requires IntegerConversion(c)
  {
    if c.directive.Signed? then SignedOf(c.directive.raw, c.directive.length)
    else UnsignedOf(c.directive.raw, c.directive.length)
  }

  /** The precision is the minimum number of digits, 1 by default: with precision 0 a zero
      has none. */
  function Minimum(c: Conversion): string
    requires IntegerConversion(c)
  {
    var v := Magnitude(Number(c));
    var d := if v == 0 then "" else DigitsText(v, BaseOf(c), c.flags.uppercase);
    Zeros((if c.flags.precision then c.precision else 1) - |d|) + d
  }

  /** The alternative form of an octal number begins with a zero. */
  function Body(c: Conversion): string
    requires IntegerConversion(c)
  {
    var d := Minimum(c);
    if BaseOf(c) == 8 && c.flags.hash && (d == "" || d[0] != '0') then "0" + d else d
  }

  /** The alternative form of a hexadecimal number other than zero has 0x in front. Signed
      conversions may have a sign. */
  function InFront(c: Conversion): string
    requires IntegerConversion(c)
  {
    if c.directive.Signed? then
      if Number(c) < 0 then "-" else if c.flags.plus then "+" else if c.flags.space then " " else ""
    else if BaseOf(c) == 16 && c.flags.hash && Number(c) != 0 then (if c.flags.uppercase then "0X" else "0x")
    else ""
  }

  /** A precision and left alignment override zero padding. */
  predicate PadsWithZeros(c: Conversion) {
    c.flags.zeroPad && !c.flags.left && !c.flags.precision
  }

  function StandardNumber(c: Conversion): string
    requires IntegerConversion(c)
  {
    var zeros := if PadsWithZeros(c) then Zeros(c.width - |InFront(c) + Body(c)|) else "";
    InFront(c) + zeros + Body(c)
  }

  function StandardText(c: Conversion): string
    requires IntegerConversion(c)
  {
    var number := StandardNumber(c);
    var blanks := Repeat(' ', c.width - |number|);
    if c.flags.left then number + blanks else blanks + number
  }

  // Arguments.

  function Width(length: Length): nat {
    match length
    case Char => 8
    case Short => 16
    case Int => 32
    case Long => 32
    case LongLong => 64
  }

  predicate Apart(a: int, b: int, k: int, m: int) {
    a - b == k * m
  }

  /** An argument is converted to the type of its length: the one value in the range of the
      type that differs from it by a multiple of the type's size. */
  lemma ArgumentsConverted(raw: int, length: Length)
    ensures var m: int := Pow2(Width(length));
            && 0 <= UnsignedOf(raw, length) < m && -m <= 2 * SignedOf(raw, length) < m
            && (exists k :: Apart(raw, UnsignedOf(raw, length), k, m))
            && (exists k :: Apart(raw, SignedOf(raw, length), k, m))
  {
    WordSizes();
    hide Pow2;
    match length
    case Char => InWord(raw, length, 0x100);
    case Short => InWord(raw, length, 0x1_0000);
    case Int => InWord(raw, length, 0x1_0000_0000);
    case Long => InWord(raw, length, 0x1_0000_0000);
    case LongLong => InWord(raw, length, TWO_64);
  }

  lemma InWord(raw: int, length: Length, m: nat)
    requires m > 0 && UnsignedOf(raw, length) == raw % m
    requires SignedOf(raw, length) == raw % m || SignedOf(raw, length) == raw % m - m
    ensures exists k :: Apart(raw, UnsignedOf(raw, length), k, m)
    ensures exists k :: Apart(raw, SignedOf(raw, length), k, m)
  {
    hide UnsignedOf, SignedOf;
    Divided(raw, m);
    assert Apart(raw, raw % m, raw / m, m);
    assert Apart(raw, raw % m - m, raw / m + 1, m) by {
      OneMore(raw / m, m);
    }
  }

  lemma Divided(raw: int, m: nat)
    requires m > 0
    ensures raw - raw % m == raw / m * m
  {
  }

  lemma OneMore(q: int, m: nat)
    ensures (q + 1) * m == q * m + m
  {
  }

  lemma WordSizes()
    ensures Pow2(8) == 0x100 && Pow2(16) == 0x1_0000 && Pow2(32) == 0x1_0000_0000 && Pow2(64) == TWO_64
  {
    assert Pow2(8) == 0x100;
    Pow2Add(8, 8);
    Pow2Add(16, 16);
    Pow2Add(32, 32);
  }

  // Both numbers are something in front, zeros, and the digits that count.

  function Significant(c: Conversion): string
    requires IntegerConversion(c)
  {
    var v := Magnitude(Number(c));
    if v == 0 then "" else DigitsText(v, BaseOf(c), c.flags.uppercase)
  }

  predicate Split(number: string, front: string, zeros: nat, d: string) {
    number == front + (Repeat('0', zeros) + d)
  }

  lemma ZerosJoin(m: nat, n: nat, d: string)
    ensures Repeat('0', m) + (Repeat('0', n) + d) == Repeat('0', m + n) + d
    ensures Repeat('0', 1) == "0" && Repeat('0', 0) == ""
  {
    assert Repeat('0', m) + Repeat('0', n) == Repeat('0', m + n);
  }

  function MinimumZeros(c: Conversion): nat
    requires IntegerConversion(c)
  {
    var p := if c.flags.precision then c.precision else 1;
    if p > |Significant(c)| then p - |Significant(c)| else 0
  }

  function BodyZeros(c: Conversion): nat
    requires IntegerConversion(c)
  {
    if BaseOf(c) == 8 && c.flags.hash && MinimumZeros(c) == 0 then 1 else MinimumZeros(c)
  }

  function StandardZeros(c: Conversion): nat
    requires IntegerConversion(c)
  {
    var used := |InFront(c)| + BodyZeros(c) + |Significant(c)|;
    if PadsWithZeros(c) && c.width > used then c.width - used + BodyZeros(c) else BodyZeros(c)
  }

  lemma BodySplit(c: Conversion)
    requires IntegerConversion(c)
    ensures Body(c) == Repeat('0', BodyZeros(c)) + Significant(c)
  {
    hide SignedOf, UnsignedOf, DigitsText;
    var v := Magnitude(Number(c));
    DigitLetters(v, BaseOf(c), c.flags.uppercase);
    ZerosJoin(1, MinimumZeros(c), Significant(c));
    assert Minimum(c) == Repeat('0', MinimumZeros(c)) + Significant(c);
  }

  lemma StandardSplit(c: Conversion)
    requires IntegerConversion(c)
    ensures Split(StandardNumber(c), InFront(c), StandardZeros(c), Significant(c))
  {
    hide InFront, Body, Significant, BodyZeros;
    BodySplit(c);
    var fill := StandardZeros(c) - BodyZeros(c);
    ZerosJoin(fill, BodyZeros(c), Significant(c));
    assert StandardNumber(c) == InFront(c) + Zeros(fill) + Body(c);
  }

  // The library's number.

  function CodeFlags(c: Conversion): Flags
    requires IntegerConversion(c)
  {
    ForValue(Magnitude(Number(c)), BaseOf(c), IntegerFlags(c.directive, c.flags))
  }

  function CodeDigits(c: Conversion): string
    requires IntegerConversion(c)
  {
    Digits(Magnitude(Number(c)), BaseOf(c), IntegerFlags(c.directive, c.flags))
  }

  function CodeLength(c: Conversion): (n: nat)
    requires IntegerConversion(c)
    ensures n >= |CodeDigits(c)|
  {
    ZerosAndDigits(|CodeDigits(c)|, Number(c) < 0, BaseOf(c), c.precision, c.width, CodeFlags(c))
  }

  function CodePrefix(c: Conversion): string
    requires IntegerConversion(c)
  {
    PrefixText(|CodeDigits(c)|, Number(c) < 0, BaseOf(c), c.precision, c.width, CodeFlags(c))
  }

  function CodeNumber(c: Conversion): string
    requires IntegerConversion(c)
  {
    NumberText(CodeDigits(c), Number(c) < 0, BaseOf(c), c.precision, c.width, CodeFlags(c))
  }

  function CodeZeros(c: Conversion): nat
    requires IntegerConversion(c)
  {
    (if BaseOf(c) == 8 then |CodePrefix(c)| else 0) + CodeLength(c) - |Significant(c)|
  }

  function CodeFront(c: Conversion): string
    requires IntegerConversion(c)
  {
    var f := CodeFlags(c);
    SignText(Number(c) < 0, CodeLength(c) + |CodePrefix(c)|, f.plus, f.space)
    + if BaseOf(c) == 8 then "" else CodePrefix(c)
  }

  lemma CodeText(c: Conversion)
    requires IntegerConversion(c)
    ensures DirectiveText(c) == Aligned(CodeNumber(c), c.width, IntegerFlags(c.directive, c.flags))
  {
    hide SignedOf, UnsignedOf, Digits, NumberText, Aligned;
  }

  lemma CodeDigitsSplit(c: Conversion)
    requires IntegerConversion(c)
    ensures |Significant(c)| <= |CodeDigits(c)| <= 22
    ensures |CodeDigits(c)| == if Number(c) == 0 && !c.flags.precision then 1 else |Significant(c)|
    ensures CodeDigits(c) == Repeat('0', |CodeDigits(c)| - |Significant(c)|) + Significant(c)
    ensures Number(c) != 0 ==> |Significant(c)| > 0
    ensures Number(c) == 0 ==> |Significant(c)| == 0
  {
    hide DigitsText, Number, IntegerConversion, Repeat;
    InRange(c);
    DigitsFit(Magnitude(Number(c)), BaseOf(c), c.flags.uppercase);
    ZerosJoin(0, 1, "");
    assert "" + Significant(c) == Significant(c);
  }

  lemma Kind(c: Conversion)
    requires IntegerConversion(c)
    ensures !c.flags.pointer && (!c.flags.precision ==> c.precision == 0)
    ensures c.directive.Signed? ==> BaseOf(c) == 10
    ensures !c.directive.Signed? ==> c.directive.Unsigned? && BaseOf(c) == c.directive.base && Number(c) >= 0
  {
  }

  lemma InRange(c: Conversion)
    requires IntegerConversion(c)
    ensures Magnitude(Number(c)) < TWO_64
  {
  }

  lemma OctalPrefixIs(c: Conversion)
    requires IntegerConversion(c) && BaseOf(c) == 8
    ensures CodePrefix(c) == Repeat('0', |CodePrefix(c)|)
  {
    hide SignedOf, UnsignedOf, DigitsText, Digits, ZerosAndDigits, PaddedLength;
    ZerosJoin(0, 1, "");
  }

  lemma CodeSplit(c: Conversion)
    requires IntegerConversion(c)
    ensures Split(CodeNumber(c), CodeFront(c), CodeZeros(c), Significant(c))
  {
    hide Significant, CodeDigits, Number, CodeFlags, SignText, PrefixText, ZerosAndDigits, IntegerConversion;
    CodeDigitsSplit(c);
    var m, prefix := CodeLength(c) - |CodeDigits(c)|, CodePrefix(c);
    var tail := Repeat('0', m) + CodeDigits(c);
    ZerosJoin(m, |CodeDigits(c)| - |Significant(c)|, Significant(c));
    var f := CodeFlags(c);
    var sign := SignText(Number(c) < 0, CodeLength(c) + |prefix|, f.plus, f.space);
    if BaseOf(c) == 8 {
      OctalPrefixIs(c);
      ZerosJoin(|prefix|, CodeLength(c) - |Significant(c)|, Significant(c));
      assert CodeNumber(c) == sign + (prefix + tail);
      assert sign + "" == sign;
    } else {
      assert sign + (prefix + tail) == sign + prefix + tail;
    }
  }

  lemma SameOctal(c: Conversion)
    requires IntegerConversion(c) && BaseOf(c) == 8
    requires |InFront(c)| + StandardZeros(c) + |Significant(c)| <= INTEGER_BUFFER_SIZE
    ensures CodeFront(c) == InFront(c) && CodeZeros(c) == StandardZeros(c)
  {
    hide Significant, CodeDigits, Number, IntegerConversion;
    CodeDigitsSplit(c);
    Kind(c);
    assert CodeFront(c) == "" && InFront(c) == "";
  }

  lemma SameDecimal(c: Conversion)
    requires IntegerConversion(c) && BaseOf(c) == 10
    requires |InFront(c)| + StandardZeros(c) + |Significant(c)| <= INTEGER_BUFFER_SIZE
    ensures CodeFront(c) == InFront(c) && CodeZeros(c) == StandardZeros(c)
  {
    hide Significant, CodeDigits, Number, IntegerConversion;
    CodeDigitsSplit(c);
    Kind(c);
    assert CodePrefix(c) == "";
  }

  lemma SameHex(c: Conversion)
    requires IntegerConversion(c) && BaseOf(c) == 16
    requires |InFront(c)| + StandardZeros(c) + |Significant(c)| <= INTEGER_BUFFER_SIZE
    ensures CodeFront(c) == InFront(c) && CodeZeros(c) == StandardZeros(c)
  {
    hide Significant, CodeDigits, Number, IntegerConversion;
    CodeDigitsSplit(c);
    Kind(c);
    assert CodeFront(c) == CodePrefix(c);
  }

  lemma CodeIsShort(c: Conversion)
    requires IntegerConversion(c)
    ensures |CodeNumber(c)| <= INTEGER_BUFFER_SIZE
  {
    hide Significant, CodeDigits, Number, IntegerConversion, ForValue;
    CodeDigitsSplit(c);
  }

  // Comparison.

  lemma SplitLength(c: Conversion)
    requires IntegerConversion(c)
    ensures |StandardNumber(c)| == |InFront(c)| + StandardZeros(c) + |Significant(c)|
    ensures PadsWithZeros(c) ==> |StandardNumber(c)| >= c.width
  {
    hide StandardNumber, InFront, Significant, BodyZeros, IntegerConversion;
    StandardSplit(c);
  }

  lemma SameNumber(c: Conversion)
    requires IntegerConversion(c) && |StandardNumber(c)| <= INTEGER_BUFFER_SIZE
    ensures CodeNumber(c) == StandardNumber(c)
  {
    hide StandardNumber, CodeNumber, CodeFront, CodeZeros, StandardZeros, InFront, Significant, IntegerConversion;
    StandardSplit(c);
    CodeSplit(c);
    SplitLength(c);
    match BaseOf(c)
    case 8 => SameOctal(c);
    case 10 => SameDecimal(c);
    case 16 => SameHex(c);
  }

  lemma SameAlignment(c: Conversion, number: string)
    requires IntegerConversion(c) && (PadsWithZeros(c) ==> |number| >= c.width)
    ensures var blanks := Repeat(' ', c.width - |number|);
            Aligned(number, c.width, IntegerFlags(c.directive, c.flags))
            == if c.flags.left then number + blanks else blanks + number
  {
    assert "" + number == number;
  }

  /** Blanks only stand in front, as a sign. */
  predicate Solid(number: string, front: string) {
    forall i :: 0 <= i < |number| && number[i] == ' ' ==> i == 0 && front == " "
  }

  lemma StandardIsSolid(c: Conversion)
    requires IntegerConversion(c)
    ensures Solid(StandardNumber(c), InFront(c))
  {
    hide SignedOf, UnsignedOf, DigitsText, StandardNumber, StandardZeros;
    StandardSplit(c);
    DigitLetters(Magnitude(Number(c)), BaseOf(c), c.flags.uppercase);
  }

  lemma BlanksDiffer(m: string, n: string, front: string, width: nat, left: bool)
    requires |m| <= INTEGER_BUFFER_SIZE < |n| && Solid(n, front)
    requires (if left then m + Repeat(' ', width - |m|) else Repeat(' ', width - |m|) + m)
             == (if left then n + Repeat(' ', width - |n|) else Repeat(' ', width - |n|) + n)
    ensures !left && |n| == INTEGER_BUFFER_SIZE + 1 && front == " " && width > INTEGER_BUFFER_SIZE
  {
    var leftM, leftN := m + Repeat(' ', width - |m|), n + Repeat(' ', width - |n|);
    assert leftN[32] == n[32] && (|leftM| > 32 ==> leftM[32] == ' ');
    if left {
      assert false;
    } else {
      var text := Repeat(' ', width - |n|) + n;
      assert text[|text| - 33] == n[|n| - 33];
      assert (Repeat(' ', width - |m|) + m)[|text| - 33] == ' ';
    }
  }

  /** A lost blank for a sign is made up for by the blanks in front. */
  predicate BlankForSign(c: Conversion)
    requires IntegerConversion(c)
  {
    && c.directive.Signed? && Number(c) >= 0 && !c.flags.plus && c.flags.space
    && c.flags.precision && c.precision == INTEGER_BUFFER_SIZE && !c.flags.left && c.width > INTEGER_BUFFER_SIZE
  }

  lemma WithBlankForSign(c: Conversion)
    requires IntegerConversion(c) && BlankForSign(c)
    ensures CodeNumber(c) == Repeat('0', StandardZeros(c)) + Significant(c)
    ensures StandardNumber(c) == " " + (Repeat('0', StandardZeros(c)) + Significant(c))
    ensures |StandardNumber(c)| == INTEGER_BUFFER_SIZE + 1
  {
    hide Significant, CodeDigits, Number, IntegerConversion, CodeNumber, StandardNumber;
    CodeDigitsSplit(c);
    Kind(c);
    StandardSplit(c);
    CodeSplit(c);
    assert CodeFront(c) == "";
    assert "" + (Repeat('0', StandardZeros(c)) + Significant(c)) == Repeat('0', StandardZeros(c)) + Significant(c);
  }

  lemma MustBeBlankForSign(c: Conversion)
    requires IntegerConversion(c) && InFront(c) == " " && !PadsWithZeros(c) && !c.flags.left
    requires |StandardNumber(c)| == INTEGER_BUFFER_SIZE + 1 && c.width > INTEGER_BUFFER_SIZE
    ensures BlankForSign(c)
  {
    hide Significant, CodeDigits, Number, IntegerConversion, StandardNumber;
    CodeDigitsSplit(c);
    Kind(c);
    SplitLength(c);
  }

  /** Every integer conversion prints what the standard asks for, whatever the value, flags,
      width and precision, exactly if sign, prefix, zeros and digits together are no longer
      than the conversion buffer (or the only thing lost is a blank next to blanks). */
  lemma PrintsStandard(c: Conversion)
    requires IntegerConversion(c)
    ensures DirectiveText(c) == StandardText(c)
            <==> |StandardNumber(c)| <= INTEGER_BUFFER_SIZE || BlankForSign(c)
  {
    hide DirectiveText, CodeNumber, StandardNumber, InFront, IntegerConversion, Solid, BlankForSign;
    CodeText(c);
    SplitLength(c);
    if |StandardNumber(c)| <= INTEGER_BUFFER_SIZE {
      SameNumber(c);
      SameAlignment(c, CodeNumber(c));
    } else if BlankForSign(c) {
      BlankIsMadeUp(c);
    } else {
      CodeIsShort(c);
      StandardIsSolid(c);
      if DirectiveText(c) == StandardText(c) {
        assert |StandardText(c)| > INTEGER_BUFFER_SIZE;
        if !PadsWithZeros(c) {
          SameAlignment(c, CodeNumber(c));
          BlanksDiffer(CodeNumber(c), StandardNumber(c), InFront(c), c.width, c.flags.left);
          MustBeBlankForSign(c);
        }
      }
    }
  }

  lemma BlankIsMadeUp(c: Conversion)
    requires IntegerConversion(c) && BlankForSign(c)
    ensures DirectiveText(c) == StandardText(c)
  {
    hide DirectiveText, CodeNumber, StandardNumber, IntegerConversion, Significant, StandardZeros;
    CodeText(c);
    WithBlankForSign(c);
    SameAlignment(c, CodeNumber(c));
    assert Repeat(' ', c.width - 32) == Repeat(' ', c.width - 33) + " ";
  }

  /** `%040d` prints no more than 32 characters, in place of 40. */
  lemma WideZeroPadding()
    ensures var c := Conversion(Signed(7, Int), Flags(true, false, false, false, false, false, false, false), 40, 0);
            IntegerConversion(c) && DirectiveText(c) != StandardText(c) && |DirectiveText(c)| <= 32
  {
    hide DigitsText;
    var c := Conversion(Signed(7, Int), Flags(true, false, false, false, false, false, false, false), 40, 0);
    PrintsStandard(c);
    CodeText(c);
    CodeIsShort(c);
    SplitLength(c);
  }

  // Format strings.

  /** An integer conversion as it is spelled, and what it prints. */
  predicate Prints(flags: string, width: string, modifier: string, c: char, n: int, format: string, text: string) {
    var w := if width == "" then PrintfFormat.NoWidth else PrintfFormat.Width(width);
    var p := PrintfFormat.Spec(flags, w, PrintfFormat.NoPrecision, modifier, PrintfFormat.Integer(c, n));
    PrintfFormat.Spelling(p) == format && DirectiveText(PrintfFormat.Meaning(p)) == text
  }

  lemma Three()
    ensures Strtol.NumberOf("3", 10) == 3
  {
    Strtol.NumberOfPushed("", '3', 10);
    assert "" + "3" == "3";
  }

  lemma Five()
    ensures DigitsText(5, 8, false) == DigitsText(5, 10, false) == DigitsText(5, 16, false) == "5"
    ensures SignedOf(5, Int) == UnsignedOf(5, Int) == UnsignedOf(0x105, Char) == UnsignedOf(0x1_0005, Short) == 5
    ensures UnsignedOf(0x1_0000_0005, Long) == 5
  {
  }

  // Each flag, modifier and specifier by itself.

  lemma WidthByExample()
    ensures Prints("", "3", "", 'd', 5, "%3d", "  5")
  {
    hide Strtol.NumberOf, SignedOf, DigitsText;
    Three();
    Five();
  }

  lemma ZeroByExample()
    ensures Prints("0", "3", "", 'd', 5, "%03d", "005")
  {
    hide Strtol.NumberOf, SignedOf, DigitsText;
    Three();
    Five();
  }

  lemma MinusByExample()
    ensures Prints("-", "3", "", 'i', 5, "%-3i", "5  ")
  {
    hide Strtol.NumberOf, SignedOf, DigitsText;
    Three();
    Five();
  }

  lemma PlusByExample()
    ensures Prints("+", "", "", 'd', 5, "%+d", "+5")
  {
    hide SignedOf, DigitsText;
    Five();
  }

  lemma SpaceByExample()
    ensures Prints(" ", "", "", 'd', 5, "% d", " 5")
  {
    hide SignedOf, DigitsText;
    Five();
  }

  lemma HashByExample()
    ensures Prints("#", "", "", 'x', 5, "%#x", "0x5")
  {
    hide UnsignedOf, DigitsText;
    Five();
  }

  lemma CharByExample()
    ensures Prints("", "", "hh", 'u', 0x105, "%hhu", "5")
  {
    hide UnsignedOf, DigitsText;
    Five();
  }

  lemma ShortByExample()
    ensures Prints("", "", "h", 'u', 0x1_0005, "%hu", "5")
  {
    hide UnsignedOf, DigitsText;
    Five();
  }

  lemma LongByExample()
    ensures Prints("", "", "l", 'o', 0x1_0000_0005, "%lo", "5")
  {
    hide UnsignedOf, DigitsText;
    Five();
  }

  lemma LongLongByExample()
    ensures Prints("", "", "ll", 'X', 0x1_0000_0005, "%llX", DigitsText(0x1_0000_0005, 16, true))
  {
    hide UnsignedOf, DigitsText;
    Five();
    SeveralDigits(0x1_0000_0005);
  }

  lemma SeveralDigits(v: nat)
    requires v < TWO_64
    ensures UnsignedOf(v, LongLong) == v && 0 < |DigitsText(v, 16, true)| <= 22
  {
    DigitsFit(v, 16, true);
  }

  /** What single flags, length modifiers and specifiers mean, spelled out. */
  lemma EachByExample()
    ensures Prints("", "3", "", 'd', 5, "%3d", "  5")
    ensures Prints("0", "3", "", 'd', 5, "%03d", "005")
    ensures Prints("-", "3", "", 'i', 5, "%-3i", "5  ")
    ensures Prints("+", "", "", 'd', 5, "%+d", "+5")
    ensures Prints(" ", "", "", 'd', 5, "% d", " 5")
    ensures Prints("#", "", "", 'x', 5, "%#x", "0x5")
    ensures Prints("", "", "hh", 'u', 0x105, "%hhu", "5")
    ensures Prints("", "", "h", 'u', 0x1_0005, "%hu", "5")
    ensures Prints("", "", "l", 'o', 0x1_0000_0005, "%lo", "5")
    ensures Prints("", "", "ll", 'X', 0x1_0000_0005, "%llX", DigitsText(0x1_0000_0005, 16, true))
  {
    hide Prints;
    WidthByExample();
    ZeroByExample();
    MinusByExample();
    PlusByExample();
    SpaceByExample();
    HashByExample();
    CharByExample();
    ShortByExample();
    LongByExample();
    LongLongByExample();
  }

  // Strings and characters.

  predicate Padded(r: string, t: string, width: nat, left: bool) {
    && |r| == (if |t| < width then width else |t|)
    && (if left then t <= r && AllBlank(r[|t|..]) else AllBlank(r[..|r| - |t|]) && r[|r| - |t|..] == t)
  }

  lemma BlanksPad(t: string, width: nat, f: Flags)
    ensures Padded(Blanks(t, width, f), t, width, f.left)
  {
    var blanks := Repeat(' ', width - |t|);
    assert (t + blanks)[|t|..] == blanks && (blanks + t)[..|blanks|] == blanks && (blanks + t)[|blanks|..] == t;
  }

  /** How much of a string is printed. */
  predicate Cut(c: Conversion, s: string, n: nat) {
    n <= |s| && (n == |s| || n == c.precision) && (if c.flags.precision then n <= c.precision else n == |s|)
  }

  predicate PrintsPart(c: Conversion, s: string, n: nat) {
    Cut(c, s, n) && Padded(DirectiveText(c), s[..n], c.width, c.flags.left)
  }

  /** The beginning of a string that the precision allows, or a character, with blanks up
      to the width on one side. */
  lemma StringsPadded(c: Conversion)
    requires Parsed(c)
    ensures c.directive.Character? ==> Padded(DirectiveText(c), [c.directive.c], c.width, c.flags.left)
    ensures c.directive.Chars? && c.directive.s.Some? ==> exists n :: PrintsPart(c, c.directive.s.value, n)
  {
    hide Padded, Blanks;
    if c.directive.Character? {
      BlanksPad([c.directive.c], c.width, c.flags);
    } else if c.directive.Chars? && c.directive.s.Some? {
      var s := c.directive.s.value;
      var n := if c.flags.precision && c.precision < |s| then c.precision else |s|;
      assert s[..|s|] == s;
      BlanksPad(s[..n], c.width, c.flags);
      assert PrintsPart(c, s, n);
    }
  }
}
