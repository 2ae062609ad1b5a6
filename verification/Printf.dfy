/** The printing routines: integers are built backwards in a small buffer, everything goes
    out one character at a time, and the output buffer keeps what fits. */
module Printf {
  import opened Common
  import opened PrintfText
  import opened PrintfFormat

  /** Where the characters go. `text` is everything put out so far, `initial` what the
      buffer held before. */
  class OutputGadget {
    const buffer: array<char>
    const maxChars: nat
    var pos: nat
    ghost const initial: string
    ghost var text: string

    ghost predicate Valid()
      reads this, buffer
    {
      && maxChars <= buffer.Length == |initial|
      && pos == |text| && buffer[..AtMost(pos, maxChars)] == text[..AtMost(pos, maxChars)]
      && buffer[AtMost(pos, maxChars)..] == initial[AtMost(pos, maxChars)..]
    }

    /** A buffer of n characters, or none if n is 0. Sizes beyond INT_MAX are cut. */
    constructor (buffer: array<char>, n: nat)
      requires n <= buffer.Length
      ensures Valid() && text == "" && this.buffer == buffer && initial == buffer[..]
      ensures maxChars == AtMost(n, INT_MAX)
    {
      this.buffer, maxChars, pos := buffer, AtMost(n, INT_MAX), 0;
      initial, text := buffer[..], "";
    }

    /** Every character counts, but only those inside the buffer are stored. */
    method PutChar(c: char)
      requires Valid()
      modifies this`pos, this`text, buffer
      ensures Valid() && text == old(text) + [c]
    {
      var at := pos;
      pos := pos + 1;
      text := text + [c];
      if at >= maxChars {
        return;
      }
      buffer[at] := c;
    }

    /** Puts the terminating NUL after the characters, or over the last one kept. */
    method AppendTermination()
      requires Valid() && maxChars > 0
      modifies buffer
      ensures var kept := AtMost(pos, maxChars - 1);
              && buffer[..kept] == text[..kept] && buffer[kept] == '\0' && buffer[kept + 1..] == initial[kept + 1..]
    {
      ghost var before := buffer[..];
      var at := if pos < maxChars then pos else maxChars - 1;
      buffer[at] := '\0';
      Terminated(before, buffer[..], text, initial, AtMost(pos, maxChars), at);
    }

    method Pad(c: char, from: nat, to: nat)
      requires Valid()
      modifies this`pos, this`text, buffer
      ensures Valid() && text == old(text) + Repeat(c, to - from)
    {
      var i := from;
      assert text == old(text) + Repeat(c, 0);
      while i < to
        invariant Valid() && from <= i && (i <= to || i == from)
        invariant text == old(text) + Repeat(c, i - from)
      {
        RepeatMore(c, i - from);
        PutChar(c);
        i := i + 1;
      }
    }

    /** Puts out the buffer backwards, with blanks up to the width. */
    method OutRev(buf: array<char>, len: nat, width: nat, f: Flags)
      requires Valid() && len <= buf.Length && buf != buffer
      modifies this`pos, this`text, buffer
      ensures Valid() && buf[..] == old(buf[..])
      ensures var number := Rev(buf[..len]);
              var blanks := Repeat(' ', width - len);
              text == old(text) + if f.left then number + blanks else if f.zeroPad then number else blanks + number
    {
      var startPos := pos;
      if !f.left && !f.zeroPad {
        Pad(' ', len, width);
      }
      ghost var padded := text;
      var i: nat := len;
      assert Rev(buf[..len])[..0] == "";
      while i > 0
        invariant Valid() && i <= len && buf[..] == old(buf[..])
        invariant text == padded + Rev(buf[..len])[..len - i]
      {
        i := i - 1;
        assert Rev(buf[..len])[..len - i] == Rev(buf[..len])[..len - i - 1] + [buf[i]];
        PutChar(buf[i]);
      }
      assert Rev(buf[..len])[..len] == Rev(buf[..len]);
      if f.left {
        assert pos - startPos == len;
        Pad(' ', pos - startPos, width);
      }
    }

    // Integers.

    /** Writes the digits into the buffer, least significant first. */
    method WriteDigits(buf: array<char>, v: nat, base: Base, upper: bool) returns (len: nat)
      requires buf.Length == INTEGER_BUFFER_SIZE && 0 < v < TWO_64
      modifies buf
      ensures len <= 22 && Rev(buf[..len]) == DigitsText(v, base, upper)
    {
      DigitsFit(v, base, upper);
      hide DigitsText, Rev, Power, DigitChar;
      ghost var all := DigitsText(v, base, upper);
      var value := v;
      len := 0;
      NothingReversed(buf[..0]);
      assert all + "" == all;
      while true
        invariant value > 0 && len < |all| && all == DigitsText(value, base, upper) + Rev(buf[..len])
        decreases value
      {
        OneDigit(value, base, upper);
        var c := DigitChar(value % base, upper);
        RevPush(buf[..len], c);
        ghost var done := Rev(buf[..len]);
        buf[len] := c;
        assert buf[..len + 1] == buf[..len] + [c];
        len := len + 1;
        if value / base == 0 {
          return;
        }
        assert all == DigitsText(value / base, base, upper) + ([c] + done);
        Shrinks(value, base);
        value := value / base;
      }
    }

    /** Appends a character to the conversion buffer if there is room. */
    method Push(buf: array<char>, len: nat, c: char) returns (more: nat)
      requires len <= buf.Length == INTEGER_BUFFER_SIZE
      modifies buf
      ensures more == if len < INTEGER_BUFFER_SIZE then len + 1 else len
      ensures Rev(buf[..more]) == (if len < INTEGER_BUFFER_SIZE then [c] else "") + old(Rev(buf[..len]))
      ensures buf[..len] == old(buf[..len])
    {
      if len < INTEGER_BUFFER_SIZE {
        RevPush(buf[..len], c);
        buf[len] := c;
        assert buf[..len + 1] == buf[..len] + [c];
        return len + 1;
      }
      return len;
    }

    /** Appends zeros until the length or the buffer's end is reached. */
    method PushZeros(buf: array<char>, len: nat, to: nat) returns (more: nat)
      requires len <= buf.Length == INTEGER_BUFFER_SIZE
      modifies buf
      ensures more == AtLeast(len, AtMost(to, INTEGER_BUFFER_SIZE))
      ensures buf[..more] == old(buf[..len]) + Repeat('0', more - len)
    {
      more := len;
      while more < to && more < INTEGER_BUFFER_SIZE
        invariant len <= more <= AtLeast(len, AtMost(to, INTEGER_BUFFER_SIZE))
        invariant buf[..more] == old(buf[..len]) + Repeat('0', more - len)
      {
        RepeatMore('0', more - len);
        buf[more] := '0';
        assert buf[..more + 1] == buf[..more] + ['0'];
        more := more + 1;
      }
    }

    /** Pads the backward digits with zeros. */
    method PadNumber(buf: array<char>, n: nat, negative: bool, precision: nat, width0: nat, f: Flags)
      returns (len: nat, width: nat)
      requires buf.Length == INTEGER_BUFFER_SIZE && n <= INTEGER_BUFFER_SIZE
      modifies buf
      ensures width == ZeroWidth(negative, width0, f) && len == PaddedLength(n, negative, precision, width0, f)
      ensures len <= INTEGER_BUFFER_SIZE && buf[..len] == old(buf[..n]) + Repeat('0', len - n)
    {
      hide Repeat, Rev;
      len, width := n, width0;
      NoZeros(buf[..len]);
      if !f.left {
        if width > 0 && f.zeroPad && (negative || f.plus || f.space) {
          width := width - 1;
        }
        if f.zeroPad {
          len := PushZeros(buf, len, width);
        }
      }
      ghost var first := len;
      len := PushZeros(buf, len, precision);
      MoreZeros(old(buf[..n]), first - n, len - first);
    }

    /** How much of the padding stays when a prefix is to come. */
    method TakeBack(base: Base, padded: nat, n: nat, precision: nat, width: nat, explicit: bool) returns (len: nat)
      requires n <= padded
      ensures len == TakenBack(base, padded, n, precision, width, explicit)
    {
      len := padded;
      if !explicit && len > 0 && (len == precision || len == width) {
        if n < len {
          len := len - 1;
        }
        if len > 0 && base == 16 && n < len {
          len := len - 1;
        }
      }
    }

    method PushPrefix(buf: array<char>, len0: nat, base: Base, upper: bool) returns (len: nat)
      requires buf.Length == INTEGER_BUFFER_SIZE && len0 <= INTEGER_BUFFER_SIZE
      modifies buf
      ensures len == len0 + |Prefix(base, len0, upper)| <= INTEGER_BUFFER_SIZE
      ensures Rev(buf[..len]) == Prefix(base, len0, upper) + old(Rev(buf[..len0]))
    {
      hide Rev;
      len := len0;
      if base == 16 {
        len := Push(buf, len, if upper then 'X' else 'x');
      }
      len := Push(buf, len, '0');
    }

    method PushSign(buf: array<char>, len0: nat, negative: bool, plus: bool, space: bool) returns (len: nat)
      requires buf.Length == INTEGER_BUFFER_SIZE && len0 <= INTEGER_BUFFER_SIZE
      modifies buf
      ensures len <= INTEGER_BUFFER_SIZE
      ensures Rev(buf[..len]) == SignText(negative, len0, plus, space) + old(Rev(buf[..len0]))
    {
      hide Rev;
      len := len0;
      if negative {
        len := Push(buf, len, '-');
      } else if plus {
        len := Push(buf, len, '+');
      } else if space {
        len := Push(buf, len, ' ');
      }
    }

    /** Digits and zeros in the backward buffer, and whether a prefix is to follow. */
    method ZeroPad(buf: array<char>, n: nat, negative: bool, base: Base, precision: nat, width0: nat, f: Flags)
      returns (len: nat, width: nat, prefixed: bool)
      requires buf.Length == INTEGER_BUFFER_SIZE && n <= INTEGER_BUFFER_SIZE
      modifies buf
      ensures width == ZeroWidth(negative, width0, f) && len == ZerosAndDigits(n, negative, base, precision, width0, f)
      ensures prefixed == WantsPrefix(base, PaddedLength(n, negative, precision, width0, f), n, f)
      ensures len <= INTEGER_BUFFER_SIZE && Rev(buf[..len]) == Repeat('0', len - n) + old(Rev(buf[..n]))
    {
      hide Repeat, Rev, TakenBack, PaddedLength, ZeroWidth;
      ghost var start := buf[..n];
      len, width := PadNumber(buf, n, negative, precision, width0, f);
      ghost var all := buf[..len];
      prefixed := (f.hash && !(base == 8 && len > n)) || f.pointer;
      if prefixed {
        len := TakeBack(base, len, n, precision, width, f.precision);
      }
      FewerZeros(all, start, len, |all| - n);
      assert buf[..len] == all[..len];
      ZerosReversed(start, len - n);
    }

    /** Zeros, prefix and sign come after the digits in the backward buffer. */
    method BuildNumber(buf: array<char>, n: nat, negative: bool, base: Base, precision: nat, width0: nat, f: Flags)
      returns (len: nat, width: nat)
      requires buf.Length == INTEGER_BUFFER_SIZE && n <= INTEGER_BUFFER_SIZE
      modifies buf
      ensures len <= INTEGER_BUFFER_SIZE && width == ZeroWidth(negative, width0, f)
      ensures Rev(buf[..len]) == NumberText(old(Rev(buf[..n])), negative, base, precision, width0, f)
    {
      hide Repeat, Rev, TakenBack, Prefix, SignText, PaddedLength, WantsPrefix, ZeroWidth, ZerosAndDigits;
      var prefixed;
      len, width, prefixed := ZeroPad(buf, n, negative, base, precision, width0, f);
      if prefixed {
        len := PushPrefix(buf, len, base, f.uppercase);
      } else {
        Unprefixed(Rev(buf[..len]));
      }
      len := PushSign(buf, len, negative, f.plus, f.space);
    }

    method PrintIntegerFinalization(buf: array<char>, n: nat, negative: bool, base: Base, precision: nat, width0: nat,
                                    f: Flags)
      requires Valid() && buf != buffer && buf.Length == INTEGER_BUFFER_SIZE && n <= INTEGER_BUFFER_SIZE
      modifies this`pos, this`text, buffer, buf
      ensures Valid()
      ensures text == old(text)
                    + Aligned(NumberText(old(Rev(buf[..n])), negative, base, precision, width0, f), width0, f)
    {
      hide Rev, NumberText;
      var len, width := BuildNumber(buf, n, negative, base, precision, width0, f);
      SameBlanks(width0, width, f, negative);
      ghost var number := Rev(buf[..len]);
      OutRev(buf, len, width, f);
      assert |number| == len;
    }

    /** Prints a number with its sign, as far as the conversion buffer holds it. */
    method PrintInteger(v: nat, negative: bool, base: Base, precision: nat, width: nat, f0: Flags)
      requires Valid() && v < TWO_64
      modifies this`pos, this`text, buffer
      ensures Valid() && text == old(text) + IntegerText(v, negative, base, precision, width, f0)
    {
      hide NumberText, DigitsText, Aligned, Rev;
      var buf := new char[INTEGER_BUFFER_SIZE];
      var len, f := DigitsBackwards(buf, v, base, f0);
      AlignedAlike(NumberText(Digits(v, base, f0), negative, base, precision, width, f), width, f0, f);
      PrintIntegerFinalization(buf, len, negative, base, precision, width, f);
    }

    method DigitsBackwards(buf: array<char>, v: nat, base: Base, f0: Flags) returns (len: nat, f: Flags)
      requires buf.Length == INTEGER_BUFFER_SIZE && v < TWO_64
      modifies buf
      ensures len <= 22 && Rev(buf[..len]) == Digits(v, base, f0) && f == ForValue(v, base, f0)
    {
      hide DigitsText;
      len, f := 0, f0;
      if v == 0 {
        if !f.precision {
          buf[0] := '0';
          len := 1;
          f := f.(hash := false);
          assert buf[..1] == "0" == Rev(buf[..1]);
        } else {
          if base == 16 {
            f := f.(hash := false);
          }
          assert Rev(buf[..0]) == "";
        }
      } else {
        len := WriteDigits(buf, v, base, f.uppercase);
      }
    }

    // Conversions.

    method PrintIntegerConversion(c: Conversion)
      requires Valid() && Parsed(c) && (c.directive.Signed? || c.directive.Unsigned?)
      modifies this`pos, this`text, buffer
      ensures Valid() && text == old(text) + DirectiveText(c)
    {
      hide IntegerText;
      var f := IntegerFlags(c.directive, c.flags);
      match c.directive
      case Signed(raw, length) =>
        var value := SignedOf(raw, length);
        MagnitudeFits(raw, length);
        PrintInteger(Magnitude(value), value < 0, 10, c.precision, c.width, f);
      case Unsigned(raw, length, base) =>
        PrintInteger(UnsignedOf(raw, length), false, base, c.precision, c.width, f);
    }

    /** `%c`: the character is always put out, whatever the width. */
    method PrintCharacter(ch: char, width: nat, f: Flags)
      requires Valid()
      modifies this`pos, this`text, buffer
      ensures Valid() && text == old(text) + Blanks([ch], width, f)
    {
      if !f.left {
        Pad(' ', 1, width);
      }
      PutChar(ch);
      if f.left {
        Pad(' ', 1, width);
      }
    }

    /** `%s`: an explicit precision limits how much of the string is put out. */
    method PrintString(s: string, width: nat, precision0: nat, f: Flags)
      requires Valid() && |s| <= INT_MAX && (!f.precision ==> precision0 == 0)
      modifies this`pos, this`text, buffer
      ensures Valid()
      ensures text == old(text) + Blanks(if f.precision && precision0 < |s| then s[..precision0] else s, width, f)
    {
      hide Valid;
      var limit := if precision0 > 0 then precision0 else INT_MAX;
      var l := AtMost(|s|, limit);
      if f.precision {
        l := if l < precision0 then l else precision0;
      }
      if !f.left {
        Pad(' ', l, width);
      }
      ghost var before := text;
      var p, precision: int := 0, precision0;
      while p < |s| && (!f.precision || precision != 0)
        invariant Valid() && 0 <= p <= |s| && precision == precision0 - p && (f.precision ==> precision >= 0)
        invariant text == before + s[..p]
        decreases |s| - p
      {
        assert s[..p + 1] == s[..p] + [s[p]];
        PutChar(s[p]);
        p := p + 1;
        precision := precision - 1;
      }
      assert s[..|s|] == s;
      if f.left {
        Pad(' ', l, width);
      }
    }

    method PrintNull(width: nat, f: Flags)
      requires Valid()
      modifies this`pos, this`text, buffer
      ensures Valid()
      ensures text == old(text) + if f.left then "(null)" + Repeat(' ', width - 6)
                                  else if f.zeroPad then "(null)" else Repeat(' ', width - 6) + "(null)"
    {
      var reversed := new char[6] [')', 'l', 'l', 'u', 'n', '('];
      assert Rev(reversed[..6]) == "(null)";
      OutRev(reversed, 6, width, f);
    }

    method PrintConversion(c: Conversion)
      requires Valid() && Parsed(c)
      modifies this`pos, this`text, buffer
      ensures Valid() && text == old(text) + DirectiveText(c)
    {
      hide Valid, Blanks, IntegerText;
      match c.directive
      case Content(ch) => PutChar(ch);
      case Signed(_, _) => PrintIntegerConversion(c);
      case Unsigned(_, _, _) => PrintIntegerConversion(c);
      case Character(ch) => PrintCharacter(ch, c.width, c.flags);
      case Chars(None) => PrintNull(c.width, c.flags);
      case Chars(Some(s)) => PrintString(s, c.width, c.precision, c.flags);
    }

    /** Takes the format string apart and prints the conversions as they come. */
    method FormatStringLoop(format: string, args: seq<Argument>, ghost ps: seq<Piece>)
      requires Valid() && WellFormed(ps) && format == Spelled(ps) && args == AllArguments(ps)
      modifies this`pos, this`text, buffer
      ensures Valid() && text == old(text) + FormatText(Meanings(ps))
    {
      hide Valid, DirectiveText, Parsed, WellFormedPiece, IsCut, Meaning, Spelling, Arguments, FormatText;
      var at, k := 0, 0;
      ghost var i := 0;
      assert ps[0..] == ps && format[0..] == format && args[0..] == args;
      NothingPrinted(text);
      while at < |format|
        invariant Valid() && 0 <= at <= |format| && 0 <= k <= |args| && i <= |ps|
        invariant format[at..] == Spelled(ps[i..]) && args[k..] == AllArguments(ps[i..])
        invariant text == old(text) + FormatText(Meanings(ps[..i]))
        decreases |ps| - i
      {
        var c;
        assert i < |ps|;
        PrintedOneMore(ps, i, old(text), text);
        c, at, k := NextConversion(format, at, args, k, ps, i);
        i := i + 1;
        if c == None {
          break;
        }
        MeaningParsed(ps[i - 1]);
        PrintConversion(c.value);
      }
      AllSpelled(ps, i);
    }
  }

  lemma MagnitudeFits(raw: int, length: Length)
    ensures Magnitude(SignedOf(raw, length)) < TWO_64
  {
  }

  lemma NothingPrinted(text: string)
    ensures text == text + FormatText([])
  {
  }

  lemma PrintedOneMore(ps: seq<Piece>, i: nat, before: string, text: string)
    requires i < |ps| && WellFormed(ps) && text == before + FormatText(Meanings(ps[..i]))
    ensures before + FormatText(Meanings(ps[..i + 1]))
            == text + if IsCut(ps[i]) then "" else DirectiveText(Meaning(ps[i]))
  {
    hide FormatText, DirectiveText, Meaning, Meanings, IsCut, WellFormed, Spelled, Spelling, Arguments, AllArguments;
    OnePiece(ps, i);
    var cs := Meanings(ps[..i]);
    if IsCut(ps[i]) {
      Unextended(cs, text);
    } else {
      MorePrinted(cs, Meaning(ps[i]));
      Regrouped(before, FormatText(cs), DirectiveText(Meaning(ps[i])));
    }
  }

  lemma Unextended(cs: seq<Conversion>, text: string)
    ensures cs + [] == cs && text + "" == text
  {
  }

  lemma Regrouped(a: string, b: string, c: string)
    ensures a + (b + c) == (a + b) + c
  {
  }

  /** The format string is used up only with its last piece. */
  lemma AllSpelled(ps: seq<Piece>, i: nat)
    requires i <= |ps| && WellFormed(ps) && Spelled(ps[i..]) == ""
    ensures i == |ps| && ps[..i] == ps
  {
    if i < |ps| {
      OnePiece(ps, i);
    }
  }

  /** Prints into a buffer of n characters. The result does not depend on n, and the
      buffer is left with as much of the text as fits before a final NUL. */
  method Vsnprintf(buffer: array<char>, n: nat, format: string, args: seq<Argument>, ghost ps: seq<Piece>)
    returns (length: nat)
    requires WellFormed(ps) && format == Spelled(ps) && args == AllArguments(ps)
    requires n <= buffer.Length && |FormatText(Meanings(ps))| <= INT_MAX
    modifies buffer
    ensures length == |FormatText(Meanings(ps))|
    ensures n == 0 ==> buffer[..] == old(buffer[..])
    ensures n > 0 ==>
              var kept := AtMost(length, AtMost(n, INT_MAX) - 1);
              && buffer[..kept] == FormatText(Meanings(ps))[..kept] && buffer[kept] == '\0'
              && buffer[kept + 1..] == old(buffer[kept + 1..])
  {
    hide FormatText, WellFormed;
    ghost var initial := buffer[..];
    var gadget := new OutputGadget(buffer, n);
    gadget.FormatStringLoop(format, args, ps);
    assert "" + FormatText(Meanings(ps)) == FormatText(Meanings(ps));
    length := gadget.pos;
    if gadget.maxChars > 0 {
      gadget.AppendTermination();
    } else {
      assert buffer[0..] == buffer[..] && initial[0..] == initial;
    }
  }

  lemma AlignedAlike(number: string, width: nat, f: Flags, g: Flags)
    requires g == f.(hash := g.hash)
    ensures Aligned(number, width, g) == Aligned(number, width, f)
  {
  }

  lemma Unprefixed(s: string)
    ensures "" + s == s
  {
  }

  lemma NoZeros(s: string)
    ensures s == s + Repeat('0', 0)
  {
  }

  lemma MoreZeros(s: string, m: nat, n: nat)
    ensures s + Repeat('0', m) + Repeat('0', n) == s + Repeat('0', m + n)
  {
  }

  lemma FewerZeros(padded: string, s: string, len: nat, zeros: nat)
    requires padded == s + Repeat('0', zeros) && |s| <= len <= |padded|
    ensures padded[..len] == s + Repeat('0', len - |s|)
  {
  }

  lemma ZerosReversed(s: string, zeros: nat)
    ensures Rev(s + Repeat('0', zeros)) == Repeat('0', zeros) + Rev(s)
  {
    RevRepeat(s, '0', zeros);
  }

  /** The width that zero padding went by matters to blanks no more. */
  lemma SameBlanks(width0: nat, width: nat, f: Flags, negative: bool)
    requires width == ZeroWidth(negative, width0, f)
    ensures f.left || !f.zeroPad ==> width == width0
  {
  }

  lemma Terminated(before: string, after: string, text: string, initial: string, m: nat, at: nat)
    requires |before| == |initial| && m <= |before| && m <= |text| && at < |before| && (at == m || at + 1 == m)
    requires before[..m] == text[..m] && before[m..] == initial[m..] && after == before[at := '\0']
    ensures at <= |text| && after[..at] == text[..at] && after[at] == '\0' && after[at + 1..] == initial[at + 1..]
  {
    forall i | 0 <= i < at
      ensures after[i] == text[i]
    {
      assert before[..m][i] == text[..m][i];
    }
    forall i | at < i < |before|
      ensures after[i] == initial[i]
    {
      assert before[m..][i - m] == initial[m..][i - m];
    }
  }

  lemma NothingReversed(s: string)
    requires s == ""
    ensures Rev(s) == ""
  {
  }

  lemma Shrinks(value: nat, base: Base)
    requires value > 0
    ensures value / base < value
  {
  }

  lemma OneDigit(value: nat, base: Base, upper: bool)
    ensures value / base == 0 ==> DigitsText(value, base, upper) == [DigitChar(value % base, upper)]
    ensures value / base > 0 ==>
              DigitsText(value, base, upper) == DigitsText(value / base, base, upper) + [DigitChar(value % base, upper)]
  {
  }
}
