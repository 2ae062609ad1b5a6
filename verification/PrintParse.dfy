/** Parsing reads back what printing wrote. */
module PrintParse {
  import opened PrintfText
  import opened PrintfFormat
  import opened Printf
  import opened Strtol

  // What the scanner makes of blanks, a sign and digits.

  lemma {:induction false} SpaceEndIs(s: string, i: nat, k: nat)
    requires i <= k <= |s| && (forall j :: i <= j < k ==> IsSpace(s[j])) && (k == |s| || !IsSpace(s[k]))
    ensures SpaceEnd(s, i) == k
    decreases k - i
  {
    if i < k {
      SpaceEndIs(s, i + 1, k);
    }
  }

  lemma {:induction false} DigitsEndIs(s: string, i: nat, k: nat, base: nat)
    requires i <= k <= |s| && (forall j :: i <= j < k ==> DigitValue(s[j]) < base)
    requires k == |s| || DigitValue(s[k]) >= base
    ensures DigitsEnd(s, i, base) == k
    decreases k - i
  {
    if i < k {
      DigitsEndIs(s, i + 1, k, base);
    }
  }

  predicate AllBlank(s: string) {
    forall i :: 0 <= i < |s| ==> s[i] == ' '
  }

  predicate Sign(s: string) {
    s == "" || s == "-" || s == "+" || s == " "
  }

  /** The text of a number with blanks around it. */
  function Laid(a: string, sign: string, d: string, z: string): string {
    a + sign + d + z
  }

  lemma LaidDigits(a: string, sign: string, d: string, z: string)
    ensures var start := |a| + |sign|; Laid(a, sign, d, z)[start..start + |d|] == d
  {
  }

  lemma ParseIs(s: string, k: nat, start: nat, e: nat)
    requires k <= start <= e <= |s| && SpaceEnd(s, 0) == k && SignEnd(s, k) == start && DigitsEnd(s, start, 10) == e
    ensures Parse(s, 10) == Parts(CharAt(s, k) == '-', s[start..e], 10, start, e)
  {
    hide SpaceEnd, DigitsEnd, AllDigits;
  }

  lemma BlanksAreSpace(a: string)
    requires AllBlank(a)
    ensures forall i :: 0 <= i < |a| ==> IsSpace(a[i]) && a[i] != '-' && a[i] != '+' && DigitValue(a[i]) >= 10
  {
  }

  lemma DigitsAreNoSpace(d: string)
    requires AllDigits(d, 10)
    ensures forall i :: 0 <= i < |d| ==> !IsSpace(d[i]) && d[i] != '-' && d[i] != '+' && DigitValue(d[i]) < 10
  {
  }

  lemma LaidParts(a: string, sign: string, d: string, z: string)
    ensures var s := Laid(a, sign, d, z);
            && |s| == |a| + |sign| + |d| + |z|
            && (forall i :: 0 <= i < |a| ==> s[i] == a[i])
            && (forall i :: |a| <= i < |a| + |sign| ==> s[i] == sign[i - |a|])
            && (forall i :: |a| + |sign| <= i < |a| + |sign| + |d| ==> s[i] == d[i - |a| - |sign|])
            && (forall i :: |a| + |sign| + |d| <= i < |s| ==> s[i] == z[i - |a| - |sign| - |d|])
  {
  }

  lemma ParseSigned(a: string, sign: string, d: string, z: string)
    requires AllBlank(a) && (sign == "-" || sign == "+") && AllDigits(d, 10) && AllBlank(z)
    ensures Parse(Laid(a, sign, d, z), 10) == Parts(sign == "-", d, 10, |a| + 1, |a| + 1 + |d|)
  {
    hide SpaceEnd, DigitsEnd, AllDigits, AllBlank, Parse;
    var s := Laid(a, sign, d, z);
    BlanksAreSpace(a);
    BlanksAreSpace(z);
    DigitsAreNoSpace(d);
    LaidParts(a, sign, d, z);
    LaidDigits(a, sign, d, z);
    hide Laid;
    SpaceEndIs(s, 0, |a|);
    DigitsEndIs(s, |a| + 1, |a| + 1 + |d|, 10);
    ParseIs(s, |a|, |a| + 1, |a| + 1 + |d|);
  }

  lemma ParsePlain(a: string, sign: string, d: string, z: string)
    requires AllBlank(a) && (sign == "" || sign == " ") && AllDigits(d, 10) && AllBlank(z) && d != ""
    ensures var start := |a| + |sign|; Parse(Laid(a, sign, d, z), 10) == Parts(false, d, 10, start, start + |d|)
  {
    hide SpaceEnd, DigitsEnd, AllDigits, AllBlank, Parse;
    var s := Laid(a, sign, d, z);
    var start := |a| + |sign|;
    BlanksAreSpace(a);
    BlanksAreSpace(z);
    DigitsAreNoSpace(d);
    LaidParts(a, sign, d, z);
    LaidDigits(a, sign, d, z);
    hide Laid;
    SpaceEndIs(s, 0, start);
    DigitsEndIs(s, start, start + |d|, 10);
    ParseIs(s, start, start, start + |d|);
  }

  lemma ParseBlank(a: string, sign: string, z: string)
    requires AllBlank(a) && (sign == "" || sign == " ") && AllBlank(z)
    ensures var s := Laid(a, sign, "", z); Parse(s, 10) == Parts(false, "", 10, |s|, |s|)
  {
    hide SpaceEnd, DigitsEnd, AllDigits, AllBlank, Parse;
    var s := Laid(a, sign, "", z);
    BlanksAreSpace(a);
    BlanksAreSpace(z);
    LaidParts(a, sign, "", z);
    hide Laid;
    SpaceEndIs(s, 0, |s|);
    DigitsEndIs(s, |s|, |s|, 10);
    ParseIs(s, |s|, |s|, |s|);
    assert s[|s|..|s|] == "";
  }

  /** Digits are found where they are, with the sign before them. */
  lemma ParseLaid(a: string, sign: string, d: string, z: string)
    requires AllBlank(a) && Sign(sign) && AllDigits(d, 10) && AllBlank(z)
    ensures var p := Parse(Laid(a, sign, d, z), 10); p.base == 10 && p.negative == (sign == "-") && p.digits == d
  {
    hide Parse, Laid, AllDigits, AllBlank;
    if sign == "-" || sign == "+" {
      ParseSigned(a, sign, d, z);
    } else if d != "" {
      ParsePlain(a, sign, d, z);
    } else {
      ParseBlank(a, sign, z);
    }
  }

  // What the printed digits are worth.

  lemma {:induction false} NoWeight(a: string, d: string, base: nat)
    requires NumberOf(a, base) == 0
    ensures NumberOf(a + d, base) == NumberOf(d, base)
  {
    if d == "" {
      assert a + d == a;
    } else {
      assert (a + d)[..|a + d| - 1] == a + d[..|d| - 1];
      NoWeight(a, d[..|d| - 1], base);
    }
  }

  lemma {:induction false} ZerosWeighNothing(n: nat, base: nat)
    requires base > 0
    ensures NumberOf(Repeat('0', n), base) == 0 && AllDigits(Repeat('0', n), base)
  {
    if n > 0 {
      RepeatMore('0', n - 1);
      ZerosWeighNothing(n - 1, base);
      NumberOfPushed(Repeat('0', n - 1), '0', base);
    }
  }

  lemma DigitBack(d: nat, upper: bool)
    requires d < 36
    ensures DigitValue(DigitChar(d, upper)) == d
  {
  }

  lemma OneMoreOf(t: string, c: char, base: nat)
    requires AllDigits(t, base) && DigitValue(c) < base
    ensures AllDigits(t + [c], base)
  {
  }

  /** In every base, the digits printed for a number are those of the number. */
  lemma {:induction false} DigitsAreWorth(v: nat, base: Base, upper: bool)
    ensures NumberOf(DigitsText(v, base, upper), base) == v && AllDigits(DigitsText(v, base, upper), base)
    decreases v
  {
    hide NumberOf, DigitValue, DigitChar, AllDigits;
    Divided(v, base);
    var c := DigitChar(v % base, upper);
    DigitBack(v % base, upper);
    Empty(base);
    if v < base {
      NumberOfPushed("", c, base);
      OneMoreOf("", c, base);
      assert "" + [c] == [c];
    } else {
      DigitsAreWorth(v / base, base, upper);
      NumberOfPushed(DigitsText(v / base, base, upper), c, base);
      OneMoreOf(DigitsText(v / base, base, upper), c, base);
    }
  }

  lemma Divided(v: nat, base: Base)
    ensures v / base * base + v % base == v && (v >= base ==> v / base < v)
  {
  }

  lemma Empty(base: nat)
    ensures NumberOf("", base) == 0 && AllDigits("", base)
  {
  }

  const LOWER_DIGITS: string := "0123456789abcdef"
  const UPPER_DIGITS: string := "0123456789ABCDEF"

  function LettersOf(upper: bool): string {
    if upper then UPPER_DIGITS else LOWER_DIGITS
  }

  predicate Among(t: string, letters: string) {
    forall i :: 0 <= i < |t| ==> t[i] in letters
  }

  lemma OneMoreAmong(t: string, c: char, letters: string)
    requires Among(t, letters) && c in letters
    ensures Among(t + [c], letters) && Among([c], letters) && (t != "" ==> (t + [c])[0] == t[0])
  {
  }

  /** Hexadecimal letters are in the case asked for, and there is no leading zero. */
  lemma {:induction false} DigitLetters(v: nat, base: Base, upper: bool)
    ensures Among(DigitsText(v, base, upper), LettersOf(upper))
    ensures v > 0 ==> DigitsText(v, base, upper)[0] != '0'
    decreases v
  {
    hide DigitChar, LettersOf, Among;
    DigitLetter(v % base, upper);
    if v >= base {
      DigitLetters(v / base, base, upper);
      OneMoreAmong(DigitsText(v / base, base, upper), DigitChar(v % base, upper), LettersOf(upper));
    } else {
      NoneAmong(LettersOf(upper));
      OneMoreAmong("", DigitChar(v, upper), LettersOf(upper));
    }
  }

  lemma NoneAmong(letters: string)
    ensures Among("", letters)
  {
  }

  lemma DigitLetter(d: nat, upper: bool)
    requires d < 16
    ensures DigitChar(d, upper) == LettersOf(upper)[d] && DigitChar(d, upper) in LettersOf(upper)
    ensures d > 0 ==> DigitChar(d, upper) != '0'
  {
  }

  lemma PaddedWorth(v: nat, base: Base, f: Flags, zeros: nat)
    ensures var d := Repeat('0', zeros) + Digits(v, base, f); NumberOf(d, base) == v && AllDigits(d, base)
  {
    DigitsAreWorth(v, base, f.uppercase);
    ZerosWeighNothing(zeros, base);
    NoWeight(Repeat('0', zeros), Digits(v, base, f), base);
    if v == 0 {
      NumberOfPushed("", '0', base);
      assert "" + "0" == "0";
    }
  }

  // Round trip.

  /** The conversion buffer has room for a sign: it is not filled up with zeros. A caller
      can tell from the format alone. */
  predicate RoomForSign(c: Conversion) {
    c.precision < 32 && (c.flags.left || !c.flags.zeroPad || c.flags.precision || c.width <= 32)
  }

  predicate PrintsLong(c: Conversion) {
    Parsed(c) && c.directive.Signed? && c.directive.length != LongLong
  }

  /** A printed long is blanks, sign, zeros and digits. */
  lemma PrintedShape(c: Conversion) returns (a: string, sign: string, d: string, z: string)
    requires PrintsLong(c)
    ensures DirectiveText(c) == Laid(a, sign, d, z) && AllBlank(a) && Sign(sign) && AllBlank(z)
    ensures AllDigits(d, 10) && NumberOf(d, 10) == Magnitude(SignedOf(c.directive.raw, c.directive.length))
    ensures SignedOf(c.directive.raw, c.directive.length) >= 0 ==> sign != "-"
    ensures SignedOf(c.directive.raw, c.directive.length) < 0 ==> (sign == "-" <==> RoomForSign(c))
  {
    hide NumberOf, AllDigits, Laid, PaddedLength, SignText, Digits, SignedOf, Parsed, Repeat;
    var v := SignedOf(c.directive.raw, c.directive.length);
    var f := IntegerFlags(c.directive, c.flags);
    var digits := Digits(Magnitude(v), 10, f);
    var len := PaddedLength(|digits|, v < 0, c.precision, c.width, f);
    sign := SignText(v < 0, len, f.plus, f.space);
    d := Repeat('0', len - |digits|) + digits;
    PaddedWorth(Magnitude(v), 10, f, len - |digits|);
    SignIs(c, v, f, len, |digits|);
    DecimalNumber(digits, v, c, f);
    a, z := Around(sign + d, c.width, f);
    LaidAround(a, sign, d, z);
  }

  lemma NoPointer(c: Conversion)
    requires PrintsLong(c)
    ensures !c.flags.pointer
  {
  }

  /** Decimals have no prefix. */
  lemma DecimalNumber(digits: string, v: int, c: Conversion, f: Flags)
    requires PrintsLong(c) && f == IntegerFlags(c.directive, c.flags)
    ensures var len := PaddedLength(|digits|, v < 0, c.precision, c.width, f);
            NumberText(digits, v < 0, 10, c.precision, c.width, ForValue(Magnitude(v), 10, f))
            == SignText(v < 0, len, f.plus, f.space) + (Repeat('0', len - |digits|) + digits)
  {
    hide PaddedLength, SignText, Repeat, Parsed;
    NoPointer(c);
    assert ForValue(Magnitude(v), 10, f) == f;
    var len := PaddedLength(|digits|, v < 0, c.precision, c.width, f);
    assert "" + (Repeat('0', len - |digits|) + digits) == Repeat('0', len - |digits|) + digits;
  }

  function AroundText(number: string, width: nat, f: Flags): (string, string) {
    if f.left then ("", Repeat(' ', width - |number|))
    else if f.zeroPad then ("", "") else (Repeat(' ', width - |number|), "")
  }

  lemma Around(number: string, width: nat, f: Flags) returns (a: string, z: string)
    ensures Aligned(number, width, f) == a + number + z && AllBlank(a) && AllBlank(z)
  {
    var around := AroundText(number, width, f);
    a, z := around.0, around.1;
    assert "" + number == number && number + "" == number;
  }

  lemma LaidAround(a: string, sign: string, d: string, z: string)
    ensures Laid(a, sign, d, z) == a + (sign + d) + z
  {
    assert a + sign + d == a + (sign + d);
  }

  /** The sign is there unless zeros fill the buffer. */
  lemma SignIs(c: Conversion, v: int, f: Flags, len: nat, n: nat)
    requires PrintsLong(c) && v == SignedOf(c.directive.raw, c.directive.length)
    requires f == IntegerFlags(c.directive, c.flags)
    requires n == |Digits(Magnitude(v), 10, f)| && len == PaddedLength(n, v < 0, c.precision, c.width, f)
    ensures var sign := SignText(v < 0, len, f.plus, f.space);
            Sign(sign) && (v >= 0 ==> sign != "-") && (v < 0 ==> (sign == "-" <==> RoomForSign(c)))
  {
    hide Digits;
    ShortDigits(Magnitude(v), f);
  }

  lemma ShortDigits(v: nat, f: Flags)
    requires v <= 0x8000_0000
    ensures |Digits(v, 10, f)| <= 11
  {
    assert Power(8, 6) == 0x4_0000;
    PowerAdd(6, 5);
    assert Power(8, 5) == 0x8000;
    FewDigits(v, 10, f.uppercase, 11);
  }

  /** Every long is read back from its printed form, whatever the flags, width and
      precision, exactly if it is not negative or there was room for its sign. */
  lemma PrintedIsRead(c: Conversion)
    requires PrintsLong(c)
    ensures var v := SignedOf(c.directive.raw, c.directive.length);
            LongIn(DirectiveText(c), 10) == v <==> v >= 0 || RoomForSign(c)
  {
    hide Parse, NumberOf, Laid, DirectiveText, RoomForSign;
    var a, sign, d, z := PrintedShape(c);
    ParseLaid(a, sign, d, z);
  }

  /** In particular with a width and a precision below 32. */
  lemma SmallFieldsRoundTrip(c: Conversion)
    requires PrintsLong(c) && c.width < 32 && c.precision < 32
    ensures LongIn(DirectiveText(c), 10) == SignedOf(c.directive.raw, c.directive.length)
  {
    PrintedIsRead(c);
  }

  /** `%033d` of -1 fills the conversion buffer with zeros and is not read back. */
  lemma SignCanBeLost()
    ensures exists p :: SpellsLong(p) && Spelling(p) == "%033d" && p.specifier.n == -1
                        && LongIn(DirectiveText(Meaning(p)), 10) != -1
  {
    hide DirectiveText, Parse, NumberOf;
    var p := Spec("0", Width("33"), NoPrecision, "", Integer('d', -1));
    ThirtyThree();
    assert Spelling(p) == "%033d";
    MeaningParsed(p);
    PrintedIsRead(Meaning(p));
  }

  lemma ThirtyThree()
    ensures NumberOf("33", 10) == 33
  {
    assert "33"[..1] == "3" && "3"[..0] == "";
  }

  /** A conversion such as `%-+8.3ld`. */
  predicate SpellsLong(p: Piece) {
    && p.Spec? && WellFormedPiece(p) && p.specifier.Integer? && (p.specifier.c == 'd' || p.specifier.c == 'i')
    && p.modifier != "ll" && p.modifier != "j"
  }

  /** Through the format string and the buffer: print with `vsnprintf`, parse with `strtol`. */
  method PrintThenParse(buffer: array<char>, p: Piece) returns (r: int)
    requires SpellsLong(p) && |DirectiveText(Meaning(p))| < buffer.Length && |DirectiveText(Meaning(p))| < INT_MAX
    requires SignedOf(p.specifier.n, LengthOf(p.modifier)) >= 0 || RoomForSign(Meaning(p))
    modifies buffer
    ensures r == SignedOf(p.specifier.n, LengthOf(p.modifier))
    ensures p.modifier == "l" && -0x8000_0000 <= p.specifier.n < 0x8000_0000 ==> r == p.specifier.n
  {
    hide DirectiveText, Parse, NumberOf, FormatText, Meanings, Spelled, AllArguments;
    OnlyPiece(p);
    var length := Vsnprintf(buffer, buffer.Length, Spelling(p), Arguments(p), [p]);
    MeaningParsed(p);
    PrintedIsRead(Meaning(p));
    assert buffer[..length] == DirectiveText(Meaning(p));
    var end, errno;
    r, end, errno := Strtol.Strtol(buffer[..length], 10);
  }

  lemma OnlyPiece(p: Piece)
    requires !IsCut(p) && WellFormedPiece(p)
    ensures WellFormed([p]) && Spelled([p]) == Spelling(p) && AllArguments([p]) == Arguments(p)
    ensures FormatText(Meanings([p])) == DirectiveText(Meaning(p))
  {
    assert WellFormed([p]);
    hide Spelling, Arguments, Meaning, DirectiveText, WellFormedPiece, IsCut;
    OnePiece([p], 0);
    assert [p][0..] == [p] && [p][1..] == [] && [p][..0] == [] && [p][..1] == [p];
    MorePrinted([], Meaning(p));
    Unprefixed(DirectiveText(Meaning(p)));
  }
}
