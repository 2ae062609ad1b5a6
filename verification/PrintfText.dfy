/** What a directive prints: the text by itself, whatever becomes of it in a buffer. */
module PrintfText {
  import opened Common
  import opened Bits

  const INTEGER_BUFFER_SIZE: nat := 32
  const INT_MAX: nat := 0x7FFF_FFFF

  /** The flags of a conversion that this part of the library looks at. */
  datatype Flags = Flags(
    zeroPad: bool, left: bool, plus: bool, space: bool, hash: bool, uppercase: bool, precision: bool, pointer: bool)

  type Base = b: nat | b == 8 || b == 10 || b == 16 witness 10

  function Repeat(c: char, n: int): (s: string)
    ensures |s| == (if n < 0 then 0 else n) && forall i :: 0 <= i < |s| ==> s[i] == c
  {
    seq(if n < 0 then 0 else n, _ => c)
  }

  function Rev(s: string): (r: string)
    ensures |r| == |s|
  {
    seq(|s|, i requires 0 <= i < |s| => s[|s| - 1 - i])
  }

  lemma RevPush(s: string, c: char)
    ensures Rev(s + [c]) == [c] + Rev(s)
  {
  }

  lemma RevRepeat(s: string, c: char, n: nat)
    ensures Rev(s + Repeat(c, n)) == Repeat(c, n) + Rev(s)
  {
  }

  lemma RepeatMore(c: char, n: nat)
    ensures Repeat(c, n + 1) == Repeat(c, n) + [c]
  {
  }

  // Digits.

  function DigitChar(d: nat, upper: bool): char
    requires d < 36
  {
    if d < 10 then '0' + d as char else (if upper then 'A' else 'a') + (d - 10) as char
  }

  /** The digits of a number, most significant first. */
  function DigitsText(v: nat, base: Base, upper: bool): (s: string)
    ensures s != []
  {
    if v < base then [DigitChar(v, upper)]
    else DigitsText(v / base, base, upper) + [DigitChar(v % base, upper)]
  }

  function Power(b: nat, n: nat): nat {
    if n == 0 then 1 else b * Power(b, n - 1)
  }

  lemma {:induction false} FewDigits(v: nat, base: Base, upper: bool, k: nat)
    requires k > 0 && v < Power(8, k)
    ensures |DigitsText(v, base, upper)| <= k
  {
    if v >= base {
      assert Power(8, 1) == 8;
      assert k > 1;
      assert v / base <= v / 8;
      FewDigits(v / base, base, upper, k - 1);
    }
  }

  lemma EightPowers()
    ensures Power(8, 22) >= TWO_64
  {
    assert Power(8, 11) == 0x2_0000_0000;
    PowerAdd(11, 11);
  }

  lemma {:induction false} PowerAdd(m: nat, n: nat)
    ensures Power(8, m + n) == Power(8, m) * Power(8, n)
  {
    if m > 0 {
      PowerAdd(m - 1, n);
      Regroup(8, Power(8, m - 1), Power(8, n));
    }
  }

  /** 64-bit values leave room in the conversion buffer. */
  lemma DigitsFit(v: nat, base: Base, upper: bool)
    requires v < TWO_64
    ensures |DigitsText(v, base, upper)| <= 22
  {
    EightPowers();
    FewDigits(v, base, upper, 22);
  }

  /** Zero prints no digits under an explicit precision. */
  function Digits(v: nat, base: Base, f: Flags): string {
    if v == 0 then (if f.precision then "" else "0") else DigitsText(v, base, f.uppercase)
  }

  // Integers.

  function AtMost(a: nat, b: nat): nat {
    if a <= b then a else b
  }

  function AtLeast(a: nat, b: nat): nat {
    if a >= b then a else b
  }

  predicate Signs(negative: bool, f: Flags) {
    negative || f.plus || f.space
  }

  /** The width that zero padding goes by: a sign takes one place of it. */
  function ZeroWidth(negative: bool, width: nat, f: Flags): nat {
    if !f.left && width > 0 && f.zeroPad && Signs(negative, f) then width - 1 else width
  }

  /** The number of digits after padding with zeros, which stops at the buffer's size. */
  function PaddedLength(n: nat, negative: bool, precision: nat, width: nat, f: Flags): (r: nat)
    ensures r >= n
  {
    var byWidth :=
      if !f.left && f.zeroPad then AtLeast(n, AtMost(ZeroWidth(negative, width, f), INTEGER_BUFFER_SIZE)) else n;
    AtLeast(byWidth, AtMost(precision, INTEGER_BUFFER_SIZE))
  }

  /** Whether a prefix is asked for; padding zeros already mark an octal number. */
  predicate WantsPrefix(base: Base, padded: nat, n: nat, f: Flags) {
    (f.hash && !(base == 8 && padded > n)) || f.pointer
  }

  /** Without an explicit precision, padding digits are taken back to make room for the
      prefix inside the width. */
  function TakenBack(base: Base, padded: nat, n: nat, precision: nat, width: nat, explicit: bool): (r: nat)
    requires n <= padded
    ensures n <= r <= padded
  {
    if explicit || padded == 0 || !(padded == precision || padded == width) then padded
    else
      var one := if n < padded then padded - 1 else padded;
      if one > 0 && base == 16 && n < one then one - 1 else one
  }

  /** The prefix as far as there is room for it; its letter goes in first. */
  function Prefix(base: Base, len: nat, upper: bool): string {
    var letter := if base == 16 && len < INTEGER_BUFFER_SIZE then (if upper then "X" else "x") else "";
    (if len + |letter| < INTEGER_BUFFER_SIZE then "0" else "") + letter
  }

  function SignText(negative: bool, len: nat, plus: bool, space: bool): string {
    if len >= INTEGER_BUFFER_SIZE then ""
    else if negative then "-" else if plus then "+" else if space then " " else ""
  }

  /** The number of digits and padding zeros that are printed. */
  function ZerosAndDigits(n: nat, negative: bool, base: Base, precision: nat, width: nat, f: Flags): (r: nat)
    ensures r >= n
  {
    var padded := PaddedLength(n, negative, precision, width, f);
    if WantsPrefix(base, padded, n, f) then
      TakenBack(base, padded, n, precision, ZeroWidth(negative, width, f), f.precision)
    else padded
  }

  function PrefixText(n: nat, negative: bool, base: Base, precision: nat, width: nat, f: Flags): string {
    if WantsPrefix(base, PaddedLength(n, negative, precision, width, f), n, f) then
      Prefix(base, ZerosAndDigits(n, negative, base, precision, width, f), f.uppercase)
    else ""
  }

  /** Sign, prefix, zeros and digits, as far as the conversion buffer holds them. */
  function NumberText(digits: string, negative: bool, base: Base, precision: nat, width: nat, f: Flags): string {
    var len := ZerosAndDigits(|digits|, negative, base, precision, width, f);
    var prefix := PrefixText(|digits|, negative, base, precision, width, f);
    SignText(negative, len + |prefix|, f.plus, f.space) + (prefix + (Repeat('0', len - |digits|) + digits))
  }

  /** A number and the blanks around it. Zero padding leaves no room for blanks. */
  function Aligned(number: string, width: nat, f: Flags): string {
    var blanks := Repeat(' ', width - |number|);
    if f.left then number + blanks else if f.zeroPad then number else blanks + number
  }

  /** Zero has no alternative form, except that an octal zero without digits gets one. */
  function ForValue(v: nat, base: Base, f: Flags): Flags {
    if v == 0 && (!f.precision || base == 16) then f.(hash := false) else f
  }

  /** An integer conversion. */
  function IntegerText(v: nat, negative: bool, base: Base, precision: nat, width: nat, f: Flags): string {
    Aligned(NumberText(Digits(v, base, f), negative, base, precision, width, ForValue(v, base, f)), width, f)
  }

  // Directives.

  datatype Length = Char | Short | Int | Long | LongLong

  /** Types have the widths of wasm32: long is 32 bits. */
  function UnsignedOf(raw: int, length: Length): (r: nat)
    ensures r < TWO_64
  {
    match length
    case Char => raw % 0x100
    case Short => raw % 0x1_0000
    case Int => raw % 0x1_0000_0000
    case Long => raw % 0x1_0000_0000
    case LongLong => raw % TWO_64
  }

  /** Two's complement. */
  function SignedOf(raw: int, length: Length): int {
    var u := UnsignedOf(raw, length);
    match length
    case Char => if u >= 0x80 then u - 0x100 else u
    case Short => if u >= 0x8000 then u - 0x1_0000 else u
    case Int => if u >= 0x8000_0000 then u - 0x1_0000_0000 else u
    case Long => if u >= 0x8000_0000 then u - 0x1_0000_0000 else u
    case LongLong => if u >= 0x8000_0000_0000_0000 then u - TWO_64 else u
  }

  /** A conversion with its argument. */
  datatype Directive =
    | Content(c: char)
    | Signed(raw: int, length: Length)
    | Unsigned(raw: int, length: Length, base: Base)
    | Character(c: char)
    | Chars(s: Option<string>)

  datatype Conversion = Conversion(directive: Directive, flags: Flags, width: nat, precision: nat)

  /** Conversions that the parser of format strings can come up with. */
  predicate Parsed(c: Conversion) {
    && c.width < TWO_32 && c.precision < TWO_32 && (!c.flags.precision ==> c.precision == 0)
    && !c.flags.pointer
    && (c.directive.Chars? && c.directive.s.Some? ==>
          '\0' !in c.directive.s.value && |c.directive.s.value| <= INT_MAX)
  }

  /** An explicit precision overrides zero padding, decimals have no alternative form, and
      unsigned numbers no sign. */
  function IntegerFlags(d: Directive, f: Flags): Flags
    requires d.Signed? || d.Unsigned?
  {
    var g := if f.precision then f.(zeroPad := false) else f;
    if d.Signed? then g.(hash := false)
    else if d.base == 10 then g.(hash := false, plus := false, space := false)
    else g.(plus := false, space := false)
  }

  function Magnitude(v: int): nat {
    if v < 0 then -v else v
  }

  function Blanks(text: string, width: nat, f: Flags): string {
    if f.left then text + Repeat(' ', width - |text|) else Repeat(' ', width - |text|) + text
  }

  function DirectiveText(c: Conversion): string {
    var f := c.flags;
    match c.directive
    case Content(ch) => [ch]
    case Signed(raw, length) =>
      var v := SignedOf(raw, length);
      IntegerText(Magnitude(v), v < 0, 10, c.precision, c.width, IntegerFlags(c.directive, f))
    case Unsigned(raw, length, base) =>
      IntegerText(UnsignedOf(raw, length), false, base, c.precision, c.width, IntegerFlags(c.directive, f))
    case Character(ch) => Blanks([ch], c.width, f)
    case Chars(None) =>
      if f.left then "(null)" + Repeat(' ', c.width - 6)
      else if f.zeroPad then "(null)" else Repeat(' ', c.width - 6) + "(null)"
    case Chars(Some(s)) => Blanks(if f.precision && c.precision < |s| then s[..c.precision] else s, c.width, f)
  }

  function FormatText(cs: seq<Conversion>): string {
    if cs == [] then "" else FormatText(cs[..|cs| - 1]) + DirectiveText(cs[|cs| - 1])
  }
}
