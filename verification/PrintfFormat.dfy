/** Format strings: how conversions are spelled, and the scanners that take the spelling
    apart again. */
module PrintfFormat {
  import opened Common
  import opened PrintfText
  import opened Strtol

  const FLAG_CHARS: string := "0-+ #"
  const MODIFIER_CHARS: string := "hlLtjz"
  const INTEGER_SPECIFIERS: string := "diuxXo"

  /** Specifiers that take no part in this model. */
  const OTHER_SPECIFIERS: string := "bfFeEgGpn"

  /** An argument: a number, or a string that may be NULL. */
  datatype Argument = Number(n: int) | Pointer(s: Option<string>)

  datatype Width = NoWidth | Width(digits: string) | StarWidth(n: int)

  /** A negative precision stands for none. */
  datatype Precision = NoPrecision | Precision(digits: string) | Negative(digits: string) | StarPrecision(n: int)

  /** What a conversion ends in. `Cut` is the end of the format string. */
  datatype Specifier = Integer(c: char, n: int) | OneChar(n: int) | Text(s: Option<string>) | Other(c: char) | Cut

  datatype Piece =
    | Plain(c: char)
    | Spec(flags: string, width: Width, precision: Precision, modifier: string, specifier: Specifier)

  // Spelling.

  function WidthText(w: Width): string {
    match w
    case NoWidth => ""
    case Width(digits) => digits
    case StarWidth(_) => "*"
  }

  function BehindPoint(p: Precision): string {
    match p
    case NoPrecision => ""
    case Precision(digits) => digits
    case Negative(digits) => "-" + digits
    case StarPrecision(_) => "*"
  }

  function PrecisionText(p: Precision): string {
    if p.NoPrecision? then "" else "." + BehindPoint(p)
  }

  function SpecifierText(s: Specifier): string {
    match s
    case Integer(c, _) => [c]
    case OneChar(_) => "c"
    case Text(_) => "s"
    case Other(c) => [c]
    case Cut => ""
  }

  function Spelling(p: Piece): string {
    match p
    case Plain(c) => [c]
    case Spec(flags, width, precision, modifier, specifier) =>
      "%" + (flags + (WidthText(width) + (PrecisionText(precision) + (modifier + SpecifierText(specifier)))))
  }

  function Spelled(ps: seq<Piece>): string {
    if ps == [] then "" else Spelling(ps[0]) + Spelled(ps[1..])
  }

  function WidthArguments(w: Width): seq<Argument> {
    if w.StarWidth? then [Number(w.n)] else []
  }

  function PrecisionArguments(p: Precision): seq<Argument> {
    if p.StarPrecision? then [Number(p.n)] else []
  }

  function SpecifierArguments(s: Specifier): seq<Argument> {
    match s
    case Integer(_, n) => [Number(n)]
    case OneChar(n) => [Number(n)]
    case Text(t) => [Pointer(t)]
    case _ => []
  }

  function Arguments(p: Piece): seq<Argument> {
    match p
    case Plain(_) => []
    case Spec(_, width, precision, _, specifier) =>
      WidthArguments(width) + (PrecisionArguments(precision) + SpecifierArguments(specifier))
  }

  function AllArguments(ps: seq<Piece>): seq<Argument> {
    if ps == [] then [] else Arguments(ps[0]) + AllArguments(ps[1..])
  }

  // What is well formed.

  predicate Decimal(t: string) {
    forall i :: 0 <= i < |t| ==> IsDigit(t[i])
  }

  predicate IsInt(n: int) {
    -(INT_MAX as int) <= n <= INT_MAX
  }

  predicate AllFlags(t: string) {
    forall i :: 0 <= i < |t| ==> t[i] in FLAG_CHARS
  }

  predicate WellFormedWidth(w: Width) {
    match w
    case NoWidth => true
    case Width(digits) => digits != "" && Decimal(digits) && digits[0] != '0'
    case StarWidth(n) => IsInt(n)
  }

  predicate WellFormedPrecision(p: Precision) {
    match p
    case NoPrecision => true
    case Precision(digits) => Decimal(digits)
    case Negative(digits) => Decimal(digits)
    case StarPrecision(n) => IsInt(n)
  }

  predicate Modifier(m: string) {
    m == "" || m == "h" || m == "hh" || m == "l" || m == "ll" || m == "L" || m == "t" || m == "j" || m == "z"
  }

  /** A character that none of the scanners takes. */
  predicate Unknown(c: char) {
    && c !in FLAG_CHARS && !IsDigit(c) && c != '*' && c != '.' && c !in MODIFIER_CHARS
    && c !in INTEGER_SPECIFIERS && c !in OTHER_SPECIFIERS && c != 'c' && c != 's' && c != '\0'
  }

  predicate WellFormedSpecifier(s: Specifier) {
    match s
    case Integer(c, _) => c in INTEGER_SPECIFIERS
    case OneChar(_) => true
    case Text(None) => true
    case Text(Some(t)) => '\0' !in t && |t| <= INT_MAX
    case Other(c) => Unknown(c)
    case Cut => true
  }

  /** Where the scanners look for the end of the format string within a conversion. */
  predicate EndIsSeen(p: Piece)
    requires p.Spec?
  {
    || p.modifier != ""
    || p.precision.Negative? || p.precision.StarPrecision? || p.precision == Precision("")
    || (p.precision.NoPrecision? && (p.width.StarWidth? || (p.width.NoWidth? && p.flags == "")))
  }

  predicate WellFormedPiece(p: Piece) {
    match p
    case Plain(c) => c != '%' && c != '\0'
    case Spec(flags, width, precision, modifier, specifier) =>
      && AllFlags(flags) && WellFormedWidth(width) && WellFormedPrecision(precision) && Modifier(modifier)
      && WellFormedSpecifier(specifier)
  }

  predicate IsCut(p: Piece) {
    p.Spec? && p.specifier.Cut?
  }

  /** A format string that breaks off in this piece does so where its end is seen. */
  predicate StaysInside(p: Piece) {
    IsCut(p) ==> EndIsSeen(p)
  }

  predicate WellFormed(ps: seq<Piece>) {
    forall i :: 0 <= i < |ps| ==> WellFormedPiece(ps[i]) && StaysInside(ps[i]) && (IsCut(ps[i]) ==> i == |ps| - 1)
  }

  // Meaning.

  function WidthValue(w: Width): nat {
    match w
    case NoWidth => 0
    case Width(digits) => NumberOf(digits, 10) % TWO_32
    case StarWidth(n) => Magnitude(n)
  }

  function PrecisionValue(p: Precision): nat {
    match p
    case Precision(digits) => NumberOf(digits, 10) % TWO_32
    case StarPrecision(n) => if n > 0 then n else 0
    case _ => 0
  }

  predicate HasPrecision(p: Precision) {
    p.Precision? || (p.StarPrecision? && p.n >= 0)
  }

  predicate TurnsLeft(w: Width) {
    w.StarWidth? && w.n < 0
  }

  function PlainFlags(t: string): Flags {
    Flags('0' in t, '-' in t, '+' in t, ' ' in t, '#' in t, false, false, false)
  }

  /** The flags when the specifier is reached. */
  function FlagsOf(flags: string, w: Width, p: Precision): Flags {
    PlainFlags(flags).(left := '-' in flags || TurnsLeft(w), precision := HasPrecision(p))
  }

  function LengthOf(modifier: string): Length {
    if modifier == "ll" || modifier == "j" then LongLong
    else if modifier == "l" then Long
    else if modifier == "hh" then Char
    else if modifier == "h" then Short
    else Int
  }

  function BaseOf(c: char): Base {
    if c == 'x' || c == 'X' then 16 else if c == 'o' then 8 else 10
  }

  function DirectiveOf(s: Specifier, length: Length): Directive
    requires !s.Cut?
  {
    match s
    case Integer(c, n) => if c == 'd' || c == 'i' then Signed(n, length) else Unsigned(n, length, BaseOf(c))
    case OneChar(n) => Character((n % 256) as char)
    case Text(t) => Chars(t)
    case Other(c) => Content(c)
  }

  function Meaning(p: Piece): Conversion
    requires !IsCut(p)
  {
    match p
    case Plain(c) => Conversion(Content(c), PlainFlags(""), 0, 0)
    case Spec(flags, width, precision, modifier, specifier) =>
      Conversion(DirectiveOf(specifier, LengthOf(modifier)),
                 FlagsOf(flags, width, precision).(uppercase := specifier.Integer? && specifier.c == 'X'),
                 WidthValue(width), PrecisionValue(precision))
  }

  /** A conversion that breaks off prints nothing. */
  function Meanings(ps: seq<Piece>): seq<Conversion> {
    if ps == [] then []
    else Meanings(ps[..|ps| - 1]) + if IsCut(ps[|ps| - 1]) then [] else [Meaning(ps[|ps| - 1])]
  }

  lemma MeaningParsed(p: Piece)
    requires WellFormedPiece(p) && !IsCut(p)
    ensures Parsed(Meaning(p))
  {
  }

  // Scanning.

  predicate IsFlag(c: char) {
    c in FLAG_CHARS
  }

  /** Behind the flags, behind the width, behind the precision and behind the modifier. */
  predicate EndsFlags(rest: string) {
    !IsFlag(CharAt(rest, 0))
  }

  predicate EndsWidth(rest: string) {
    EndsFlags(rest) && !IsDigit(CharAt(rest, 0)) && CharAt(rest, 0) != '*'
  }

  predicate EndsPrecision(rest: string) {
    EndsWidth(rest) && CharAt(rest, 0) != '.'
  }

  predicate EndsModifier(rest: string) {
    EndsPrecision(rest) && CharAt(rest, 0) !in MODIFIER_CHARS
  }

  /** A scanner that takes all it can of one kind takes the whole field and no more. */
  lemma Munch(P: char -> bool, s: string, i: nat, e: nat, field: string, rest: string)
    requires i <= e <= |s| && s[i..] == field + rest
    requires (forall k :: i <= k < e ==> P(s[k])) && (e < |s| ==> !P(s[e]))
    requires (forall k :: 0 <= k < |field| ==> P(field[k])) && (rest != "" ==> !P(rest[0]))
    ensures e == i + |field| && s[i..e] == field && s[e..] == rest
  {
    assert forall k :: i <= k < |s| ==> s[k] == s[i..][k - i];
    assert forall k :: i <= k < i + |field| ==> P(s[k]);
    assert rest != "" ==> s[i + |field|] == rest[0];
    assert s[i..e] == s[i..][..e - i] && s[e..] == s[i..][e - i..];
  }

  /** After a field of known length. */
  lemma Behind(s: string, i: nat, field: string, rest: string)
    requires i <= |s| && s[i..] == field + rest
    ensures i + |field| <= |s| && s[i + |field|..] == rest
    ensures forall k :: 0 <= k < |field| ==> s[i + k] == field[k]
    ensures CharAt(s, i + |field|) == CharAt(rest, 0)
  {
    assert forall k :: 0 <= k < |field| ==> s[i + k] == s[i..][k];
    assert s[i + |field|..] == s[i..][|field|..];
  }

  method ParseFlags(format: string, at0: nat) returns (f: Flags, at: nat)
    requires at0 <= |format|
    ensures at0 <= at <= |format| && (forall k :: at0 <= k < at ==> IsFlag(format[k]))
    ensures at < |format| ==> !IsFlag(format[at])
    ensures f == PlainFlags(format[at0..at])
  {
    f, at := PlainFlags(""), at0;
    while true
      invariant at0 <= at <= |format| && (forall k :: at0 <= k < at ==> IsFlag(format[k]))
      invariant f == PlainFlags(format[at0..at])
      decreases |format| - at
    {
      var c := CharAt(format, at);
      match c {
        case '0' => f := f.(zeroPad := true);
        case '-' => f := f.(left := true);
        case '+' => f := f.(plus := true);
        case ' ' => f := f.(space := true);
        case '#' => f := f.(hash := true);
        case _ => return;
      }
      assert format[at0..at + 1] == format[at0..at] + [c];
      at := at + 1;
    }
  }

  /** Digits, read into a 32-bit word that wraps around. */
  method Atou(format: string, at0: nat) returns (value: nat, at: nat)
    requires at0 <= |format|
    ensures at0 <= at <= |format| && (forall k :: at0 <= k < at ==> IsDigit(format[k]))
    ensures at < |format| ==> !IsDigit(format[at])
    ensures value == NumberOf(format[at0..at], 10) % TWO_32
  {
    hide NumberOf;
    value, at := 0, at0;
    NoDigits(format[at0..at], 10);
    while IsDigit(CharAt(format, at))
      invariant at0 <= at <= |format| && (forall k :: at0 <= k < at ==> IsDigit(format[k]))
      invariant value == NumberOf(format[at0..at], 10) % TWO_32
      decreases |format| - at
    {
      var c := format[at];
      OneMoreDecimal(format, at0, at);
      value := (value * 10 + (c as nat - '0' as nat)) % TWO_32;
      at := at + 1;
    }
  }

  lemma OneMoreDecimal(s: string, i: nat, j: nat)
    requires i <= j < |s| && IsDigit(s[j])
    ensures NumberOf(s[i..j + 1], 10) % TWO_32
            == ((NumberOf(s[i..j], 10) % TWO_32) * 10 + (s[j] as nat - '0' as nat)) % TWO_32
  {
    hide NumberOf;
    assert s[i..j + 1] == s[i..j] + [s[j]];
    MoreDigits(s[i..j], s[j], 10);
    WrappedDigit(NumberOf(s[i..j], 10), DigitValue(s[j]));
  }

  lemma WrappedDigit(n: nat, d: nat)
    ensures ((n % TWO_32) * 10 + d) % TWO_32 == (n * 10 + d) % TWO_32
  {
    var q := n / TWO_32;
    assert n * 10 + d == (n % TWO_32) * 10 + d + TWO_32 * (q * 10);
  }

  method ParseWidth(format: string, at0: nat, args: seq<Argument>, k0: nat, f0: Flags,
                    ghost w: Width, ghost rest: string, ghost more: seq<Argument>)
    returns (width: nat, at: nat, k: nat, f: Flags, ended: bool)
    requires at0 <= |format| && format[at0..] == WidthText(w) + rest
    requires k0 <= |args| && args[k0..] == WidthArguments(w) + more
    requires WellFormedWidth(w) && EndsWidth(rest)
    ensures width == WidthValue(w) && f == f0.(left := f0.left || TurnsLeft(w))
    ensures at <= |format| && format[at..] == rest && k <= |args| && args[k..] == more
    ensures ended <==> w.StarWidth? && rest == ""
  {
    width, at, k, f, ended := 0, at0, k0, f0, false;
    Behind(format, at0, WidthText(w), rest);
    if IsDigit(CharAt(format, at)) {
      width, at := Atou(format, at);
      Munch(IsDigit, format, at0, at, WidthText(w), rest);
    } else if CharAt(format, at) == '*' {
      var n := args[k].n;
      k := k + 1;
      if n < 0 {
        f := f.(left := true);
        width := -n;
      } else {
        width := n;
      }
      at := at + 1;
      ended := at == |format|;
    }
  }

  /** What is read behind the point. */
  method ParsePrecision(format: string, at0: nat, args: seq<Argument>, k0: nat, f0: Flags,
                        ghost p: Precision, ghost rest: string, ghost more: seq<Argument>)
    returns (precision: nat, at: nat, k: nat, f: Flags, ended: bool)
    requires at0 <= |format| && format[at0..] == PrecisionText(p) + rest
    requires k0 <= |args| && args[k0..] == PrecisionArguments(p) + more
    requires WellFormedPrecision(p) && EndsPrecision(rest) && !f0.precision
    ensures precision == PrecisionValue(p) && f == f0.(precision := HasPrecision(p))
    ensures at <= |format| && format[at..] == rest && k <= |args| && args[k..] == more
    ensures ended <==> rest == "" && (p == Precision("") || p.Negative? || p.StarPrecision?)
  {
    precision, at, k, f, ended := 0, at0, k0, f0, false;
    hide NumberOf, BehindPoint, PrecisionText, EndsPrecision, WellFormedPrecision, PrecisionValue, HasPrecision;
    HeadOf(format, at0);
    HeadOfPrecision(p, rest);
    if CharAt(format, at) == '.' {
      Behind(format, at0, ".", BehindPoint(p) + rest);
      precision, at, k, f, ended := ParseBehindPoint(format, at + 1, args, k, f.(precision := true), p, rest, more);
    }
  }

  /** Only a precision begins with a point. */
  lemma HeadOfPrecision(p: Precision, rest: string)
    requires EndsPrecision(rest)
    ensures p.NoPrecision? <==> CharAt(PrecisionText(p) + rest, 0) != '.'
    ensures p.NoPrecision? ==> PrecisionValue(p) == 0 && !HasPrecision(p) && PrecisionText(p) + rest == rest
    ensures !p.NoPrecision? ==> PrecisionText(p) + rest == "." + (BehindPoint(p) + rest)
  {
    hide EndsWidth, EndsFlags, BehindPoint;
    if p.NoPrecision? {
      assert "" + rest == rest;
    } else {
      assert ("." + BehindPoint(p)) + rest == "." + (BehindPoint(p) + rest);
    }
  }

  method ParseBehindPoint(format: string, at0: nat, args: seq<Argument>, k0: nat, f0: Flags,
                          ghost p: Precision, ghost rest: string, ghost more: seq<Argument>)
    returns (precision: nat, at: nat, k: nat, f: Flags, ended: bool)
    requires WellFormedPrecision(p) && !p.NoPrecision? && EndsPrecision(rest) && f0.precision
    requires at0 <= |format| && format[at0..] == BehindPoint(p) + rest
    requires k0 <= |args| && args[k0..] == PrecisionArguments(p) + more
    ensures precision == PrecisionValue(p) && f == f0.(precision := HasPrecision(p))
    ensures at <= |format| && format[at..] == rest && k <= |args| && args[k..] == more
    ensures ended <==> rest == "" && (p == Precision("") || p.Negative? || p.StarPrecision?)
  {
    hide NumberOf;
    precision, at, k, f, ended := 0, at0, k0, f0, at0 == |format|;
    NoDigits("", 10);
    HeadOf(format, at0);
    HeadBehindPoint(p, rest);
    if ended {
      return;
    }
    if format[at] == '-' {
      ended, at := SkipNegative(format, at, p, rest);
      f := f.(precision := false);
    } else if IsDigit(format[at]) {
      precision, at := Atou(format, at);
      Munch(IsDigit, format, at0, at, p.digits, rest);
    } else if format[at] == '*' {
      var n := args[k].n;
      k := k + 1;
      if n < 0 {
        f := f.(precision := false);
      } else {
        precision := if n > 0 then n else 0;
      }
      at := at + 1;
      ended := at == |format|;
    }
  }

  method SkipNegative(format: string, at0: nat, ghost p: Precision, ghost rest: string) returns (ended: bool, at: nat)
    requires WellFormedPrecision(p) && p.Negative? && EndsPrecision(rest)
    requires at0 <= |format| && format[at0..] == BehindPoint(p) + rest
    ensures at <= |format| && format[at..] == rest && (ended <==> rest == "")
  {
    assert BehindPoint(p) + rest == "-" + (p.digits + rest);
    Behind(format, at0, "-", p.digits + rest);
    ended, at := SkipDigits(format, at0 + 1);
    Munch(IsDigit, format, at0 + 1, at, p.digits, rest);
  }

  /** The first character behind the point tells the kind of precision. */
  lemma HeadBehindPoint(p: Precision, rest: string)
    requires WellFormedPrecision(p) && !p.NoPrecision? && EndsPrecision(rest)
    ensures var c := CharAt(BehindPoint(p) + rest, 0);
            && (p.Negative? <==> c == '-') && (p.StarPrecision? <==> c == '*')
            && (p.Precision? && p.digits != "" <==> IsDigit(c))
    ensures p == Precision("") ==> BehindPoint(p) + rest == rest
  {
  }

  lemma HeadOf(s: string, i: nat)
    requires i <= |s|
    ensures CharAt(s, i) == CharAt(s[i..], 0) && (i == |s| <==> s[i..] == "")
  {
  }

  /** The digits of a negative precision. */
  method SkipDigits(format: string, at0: nat) returns (ended: bool, at: nat)
    requires at0 <= |format|
    ensures at0 <= at <= |format| && (forall k :: at0 <= k < at ==> IsDigit(format[k]))
    ensures at < |format| ==> !IsDigit(format[at])
    ensures ended <==> at == |format|
  {
    at, ended := at0, at0 == |format|;
    while !ended && IsDigit(format[at])
      invariant at0 <= at <= |format| && (forall k :: at0 <= k < at ==> IsDigit(format[k]))
      invariant ended <==> at == |format|
      decreases |format| - at
    {
      at := at + 1;
      ended := at == |format|;
    }
  }

  method ParseModifier(format: string, at0: nat, ghost m: string, ghost rest: string)
    returns (length: Length, at: nat, ended: bool)
    requires at0 <= |format| && format[at0..] == m + rest && Modifier(m) && EndsModifier(rest)
    ensures length == LengthOf(m) && at <= |format| && format[at..] == rest
    ensures ended <==> m != "" && rest == ""
  {
    length, at, ended := Int, at0, false;
    Behind(format, at0, m, rest);
    match CharAt(format, at)
    case 'l' =>
      length, at := Long, at + 1;
      if at < |format| && format[at] == 'l' {
        length, at := LongLong, at + 1;
      }
      ended := at == |format|;
    case 'h' =>
      length, at := Short, at + 1;
      if at < |format| && format[at] == 'h' {
        length, at := Char, at + 1;
      }
      ended := at == |format|;
    case 'j' =>
      length, at := LongLong, at + 1;
      ended := at == |format|;
    case _ =>
      if CharAt(format, at) in "Ltz" {
        at := at + 1;
        ended := at == |format|;
      }
  }

  method ParseSpecifier(format: string, at0: nat, args: seq<Argument>, k0: nat, length: Length,
                        ghost s: Specifier, ghost rest: string, ghost more: seq<Argument>)
    returns (d: Directive, upper: bool, at: nat, k: nat)
    requires at0 <= |format| && format[at0..] == SpecifierText(s) + rest
    requires k0 <= |args| && args[k0..] == SpecifierArguments(s) + more
    requires WellFormedSpecifier(s) && !s.Cut?
    ensures d == DirectiveOf(s, length) && (upper <==> s.Integer? && s.c == 'X')
    ensures at <= |format| && format[at..] == rest && k <= |args| && args[k..] == more
  {
    Behind(format, at0, SpecifierText(s), rest);
    var c := format[at0];
    at, k, upper := at0 + 1, k0, c == 'X';
    if c in INTEGER_SPECIFIERS {
      var base: Base := if c == 'x' || c == 'X' then 16 else if c == 'o' then 8 else 10;
      d := if c == 'd' || c == 'i' then Signed(args[k].n, length) else Unsigned(args[k].n, length, base);
      k := k + 1;
    } else if c == 'c' {
      d := Character((args[k].n % 256) as char);
      k := k + 1;
    } else if c == 's' {
      d := Chars(args[k].s);
      k := k + 1;
    } else {
      d := Content(c);
    }
  }

  // A whole conversion.

  function SpecifierOn(p: Piece, rest: string): string
    requires p.Spec?
  {
    SpecifierText(p.specifier) + rest
  }

  function ModifierOn(p: Piece, rest: string): string
    requires p.Spec?
  {
    p.modifier + SpecifierOn(p, rest)
  }

  function PrecisionOn(p: Piece, rest: string): string
    requires p.Spec?
  {
    PrecisionText(p.precision) + ModifierOn(p, rest)
  }

  function WidthOn(p: Piece, rest: string): string
    requires p.Spec?
  {
    WidthText(p.width) + PrecisionOn(p, rest)
  }

  /** No field begins with a character that the scanner before it would take. */
  lemma FieldsApart(p: Piece, rest: string)
    requires p.Spec? && WellFormedPiece(p) && (IsCut(p) ==> rest == "")
    ensures EndsModifier(SpecifierOn(p, rest)) && EndsPrecision(ModifierOn(p, rest))
    ensures EndsWidth(PrecisionOn(p, rest)) && EndsFlags(WidthOn(p, rest))
  {
    SpecifierBegins(p, rest);
    ModifierBegins(p, rest);
    hide WellFormedPiece, SpecifierOn, ModifierOn, EndsModifier;
    assert !p.precision.NoPrecision? ==> CharAt(PrecisionOn(p, rest), 0) == '.';
    assert EndsWidth(PrecisionOn(p, rest));
    WidthBegins(p, rest);
  }

  lemma SpecifierBegins(p: Piece, rest: string)
    requires p.Spec? && WellFormedPiece(p) && (IsCut(p) ==> rest == "")
    ensures EndsModifier(SpecifierOn(p, rest))
  {
  }

  lemma ModifierBegins(p: Piece, rest: string)
    requires p.Spec? && WellFormedPiece(p) && EndsModifier(SpecifierOn(p, rest))
    ensures EndsPrecision(ModifierOn(p, rest))
  {
    assert p.modifier != "" ==> CharAt(ModifierOn(p, rest), 0) == p.modifier[0];
  }

  lemma WidthBegins(p: Piece, rest: string)
    requires p.Spec? && WellFormedPiece(p) && EndsWidth(PrecisionOn(p, rest))
    ensures EndsFlags(WidthOn(p, rest))
  {
    hide PrecisionOn;
    assert !p.width.NoWidth? ==> CharAt(WidthOn(p, rest), 0) == WidthText(p.width)[0];
  }

  lemma SpellingOn(p: Piece, rest: string)
    requires p.Spec?
    ensures Spelling(p) + rest == "%" + (p.flags + WidthOn(p, rest))
  {
    var s, m, r, w := SpecifierText(p.specifier), p.modifier, PrecisionText(p.precision), WidthText(p.width);
    assert m + s + rest == ModifierOn(p, rest);
    assert (r + (m + s)) + rest == PrecisionOn(p, rest);
    assert (w + (r + (m + s))) + rest == WidthOn(p, rest);
    assert (p.flags + (w + (r + (m + s)))) + rest == p.flags + WidthOn(p, rest);
  }

  /** Only a conversion that breaks off leaves nothing behind one of its fields. */
  lemma EndsEarly(p: Piece, rest: string)
    requires p.Spec? && WellFormedPiece(p) && (IsCut(p) ==> rest == "")
    ensures SpecifierOn(p, rest) == "" <==> IsCut(p)
    ensures ModifierOn(p, rest) == "" <==> IsCut(p) && p.modifier == ""
    ensures PrecisionOn(p, rest) == "" <==> IsCut(p) && p.modifier == "" && p.precision.NoPrecision?
  {
  }

  lemma FieldsOn(p: Piece, rest: string, more: seq<Argument>)
    requires p.Spec?
    ensures WidthOn(p, rest) == WidthText(p.width) + PrecisionOn(p, rest)
    ensures PrecisionOn(p, rest) == PrecisionText(p.precision) + ModifierOn(p, rest)
    ensures ModifierOn(p, rest) == p.modifier + SpecifierOn(p, rest)
    ensures var last := SpecifierArguments(p.specifier) + more;
            Arguments(p) + more == WidthArguments(p.width) + (PrecisionArguments(p.precision) + last)
  {
  }

  /** The end of the format string is seen behind a field that is not empty. */
  lemma CutAtField(p: Piece, rest: string)
    requires IsCut(p) ==> WellFormedPiece(p) && rest == "" && p.flags + WidthOn(p, rest) != ""
    ensures IsCut(p) ==>
              (EndIsSeen(p) <==>
              || p.modifier != ""
              || p.precision.Negative? || p.precision.StarPrecision? || p.precision == Precision("")
              || (p.precision.NoPrecision? && p.width.StarWidth?))
  {
  }

  method FlagField(format: string, at0: nat, ghost field: string, ghost rest: string) returns (f: Flags, at: nat)
    requires at0 <= |format| && format[at0..] == field + rest && AllFlags(field) && EndsFlags(rest)
    ensures f == PlainFlags(field) && at <= |format| && format[at..] == rest
  {
    f, at := ParseFlags(format, at0);
    Munch(IsFlag, format, at0, at, field, rest);
  }

  /** The fields before the specifier. */
  method ParseFields(format: string, at0: nat, args: seq<Argument>, k0: nat,
                     ghost p: Piece, ghost rest: string, ghost more: seq<Argument>)
    returns (f: Flags, width: nat, precision: nat, length: Length, at: nat, k: nat, ended: bool)
    requires p.Spec? && WellFormedPiece(p) && (IsCut(p) ==> rest == "" && more == [])
    requires at0 < |format| && format[at0..] == p.flags + WidthOn(p, rest)
    requires k0 <= |args| && args[k0..] == Arguments(p) + more
    ensures at <= |format| && format[at..] == SpecifierOn(p, rest)
    ensures k <= |args| && args[k..] == SpecifierArguments(p.specifier) + more
    ensures ended <==> IsCut(p) && EndIsSeen(p)
    ensures !ended ==> f == FlagsOf(p.flags, p.width, p.precision) && length == LengthOf(p.modifier)
    ensures !ended ==> width == WidthValue(p.width) && precision == PrecisionValue(p.precision)
  {
    hide WidthText, PrecisionText, SpecifierText, NumberOf, WidthValue, PrecisionValue, LengthOf, HasPrecision,
      EndsFlags, EndsWidth, EndsPrecision, EndsModifier, Modifier, SpecifierOn, ModifierOn, PrecisionOn, WidthOn,
      WellFormedSpecifier, Arguments, EndIsSeen, SpecifierArguments, WellFormedWidth, WellFormedPrecision, AllFlags;
    FieldsApart(p, rest);
    EndsEarly(p, rest);
    FieldsOn(p, rest, more);
    CutAtField(p, rest);
    length, precision := Int, 0;
    f, at := FlagField(format, at0, p.flags, WidthOn(p, rest));
    ghost var last := SpecifierArguments(p.specifier) + more;
    width, at, k, f, ended := ParseWidth(format, at, args, k0, f, p.width, PrecisionOn(p, rest),
                                         PrecisionArguments(p.precision) + last);
    if ended {
      return;
    }
    precision, at, k, f, ended := ParsePrecision(format, at, args, k, f, p.precision, ModifierOn(p, rest), last);
    if ended {
      return;
    }
    length, at, ended := ParseModifier(format, at, p.modifier, SpecifierOn(p, rest));
  }

  /** A conversion, from behind its percent sign. Behind flags, a width in digits or a
      precision in digits the end of the format string is not seen: its NUL is put out and
      stepped over. */
  method ParseConversion(format: string, at0: nat, args: seq<Argument>, k0: nat,
                         ghost p: Piece, ghost rest: string, ghost more: seq<Argument>)
    returns (c: Option<Conversion>, at: nat, k: nat)
    requires p.Spec? && WellFormedPiece(p) && (IsCut(p) ==> rest == "" && more == [])
    requires at0 <= |format| && format[at0..] == p.flags + WidthOn(p, rest)
    requires k0 <= |args| && args[k0..] == Arguments(p) + more
    ensures k <= |args| && args[k..] == more && (at <= |format| <==> StaysInside(p))
    ensures StaysInside(p) ==> format[at..] == rest && c == if IsCut(p) then None else Some(Meaning(p))
    ensures !StaysInside(p) ==> at == |format| + 1 && c.Some? && c.value.directive == Content('\0')
  {
    hide WellFormedPiece;
    if at0 == |format| {
      NothingLeft(p, rest, more);
      return None, at0, k0;
    }
    var f, width, precision, length, ended;
    f, width, precision, length, at, k, ended := ParseFields(format, at0, args, k0, p, rest, more);
    if ended {
      return None, at, k;
    }
    var d, upper;
    EndsEarly(p, rest);
    if CharAt(format, at) == '\0' {
      SpecifierOf(p);
      return Some(Conversion(Content('\0'), f, width, precision)), at + 1, k;
    }
    assert WellFormedSpecifier(p.specifier) by { SpecifierOf(p); }
    d, upper, at, k := ParseSpecifier(format, at, args, k, length, p.specifier, rest, more);
    c := Some(Conversion(d, f.(uppercase := upper), width, precision));
  }

  /** `%5` at the end of a format string is such a case. */
  lemma EndIsMissed()
    ensures exists p: Piece :: WellFormedPiece(p) && Spelling(p) == "%5" && !StaysInside(p)
  {
    var p := Spec("", Width("5"), NoPrecision, "", Cut);
    assert WellFormedPiece(p) && !StaysInside(p);
    assert Spelling(p) == "%5";
  }

  lemma SpecifierOf(p: Piece)
    requires p.Spec? && WellFormedPiece(p)
    ensures WellFormedSpecifier(p.specifier)
  {
  }

  lemma NothingLeft(p: Piece, rest: string, more: seq<Argument>)
    requires p.Spec? && WellFormedPiece(p) && p.flags + WidthOn(p, rest) == ""
    requires IsCut(p) ==> rest == "" && more == []
    ensures IsCut(p) && EndIsSeen(p) && rest == "" && Arguments(p) + more == []
  {
    FieldsOn(p, rest, more);
    EndsEarly(p, rest);
  }

  /** What one piece adds to the spelling, to the arguments and to the meaning. */
  lemma OnePiece(ps: seq<Piece>, i: nat)
    requires i < |ps| && WellFormed(ps)
    ensures Spelled(ps[i..]) == Spelling(ps[i]) + Spelled(ps[i + 1..])
    ensures AllArguments(ps[i..]) == Arguments(ps[i]) + AllArguments(ps[i + 1..])
    ensures Meanings(ps[..i + 1]) == Meanings(ps[..i]) + if IsCut(ps[i]) then [] else [Meaning(ps[i])]
    ensures IsCut(ps[i]) ==> i + 1 == |ps| && Spelled(ps[i + 1..]) == "" && AllArguments(ps[i + 1..]) == []
    ensures Spelling(ps[i]) != "" && (Spelling(ps[i])[0] == '%' <==> ps[i].Spec?)
  {
    assert ps[i..][0] == ps[i] && ps[i..][1..] == ps[i + 1..];
    assert ps[..i + 1][i] == ps[i] && ps[..i + 1][..i] == ps[..i];
  }

  lemma MorePrinted(cs: seq<Conversion>, c: Conversion)
    ensures FormatText(cs + [c]) == FormatText(cs) + DirectiveText(c)
  {
    assert (cs + [c])[..|cs|] == cs;
  }

  /** Takes the next piece off the format string. */
  method NextConversion(format: string, at0: nat, args: seq<Argument>, k0: nat, ghost ps: seq<Piece>, ghost i: nat)
    returns (c: Option<Conversion>, at: nat, k: nat)
    requires WellFormed(ps) && i < |ps| && at0 < |format| && k0 <= |args|
    requires format[at0..] == Spelled(ps[i..]) && args[k0..] == AllArguments(ps[i..])
    ensures at <= |format| && k <= |args| && format[at..] == Spelled(ps[i + 1..])
    ensures args[k..] == AllArguments(ps[i + 1..])
    ensures c == if IsCut(ps[i]) then None else Some(Meaning(ps[i]))
  {
    hide WellFormedPiece, StaysInside, Spelling, Arguments, Spelled, AllArguments, Meanings;
    OnePiece(ps, i);
    ghost var rest, more := Spelled(ps[i + 1..]), AllArguments(ps[i + 1..]);
    Behind(format, at0, Spelling(ps[i]), rest);
    if format[at0] != '%' {
      PlainPiece(ps[i]);
      return Some(Conversion(Content(format[at0]), PlainFlags(""), 0, 0)), at0 + 1, k0;
    }
    SpellingOn(ps[i], rest);
    Behind(format, at0, "%", ps[i].flags + WidthOn(ps[i], rest));
    c, at, k := ParseConversion(format, at0 + 1, args, k0, ps[i], rest, more);
  }

  lemma PlainPiece(p: Piece)
    requires p.Plain?
    ensures Spelling(p) == [p.c] && Arguments(p) == []
  {
  }
}
