/** Reading decimal digits into the buffer, and the whole way from the text of a number to
    113 bits of it. */
module DecimalRead {
  import opened Common
  import opened Bits
  import opened Decimal
  import opened DecimalValue
  import opened DecimalScale
  import PrintfText

  const P10S: seq<nat> := [10, 100, 1000, 10000, 100000, 1000000, 10000000, 100000000]

  // The text of a number.

  function DigitOf(c: char): nat
    requires IsDigit(c)
  {
    c as int - '0' as int
  }

  /** Digits with at most one point among them. */
  predicate Numeral(t: seq<char>) {
    && (forall i :: 0 <= i < |t| ==> IsDigit(t[i]) || t[i] == '.')
    && (forall i, j :: 0 <= i < j < |t| && t[i] == '.' ==> t[j] != '.')
  }

  /** The digits as one number, the point left out. */
  function IntOf(t: seq<char>): nat
    requires Numeral(t)
  {
    if t == [] then 0
    else
      var c := t[|t| - 1];
      if c == '.' then IntOf(t[..|t| - 1]) else 10 * IntOf(t[..|t| - 1]) + DigitOf(c)
  }

  /** The number of digits after the point. */
  function Places(t: seq<char>): nat
    requires Numeral(t)
  {
    if t == [] || t[|t| - 1] == '.' || '.' !in t[..|t| - 1] then 0 else Places(t[..|t| - 1]) + 1
  }

  /** The number of digits from the first one that is not zero. */
  function Significant(t: seq<char>): nat
    requires Numeral(t)
  {
    if t == [] then 0
    else
      var c, before := t[|t| - 1], t[..|t| - 1];
      if c == '.' || (c == '0' && IntOf(before) == 0) then Significant(before) else Significant(before) + 1
  }

  /** That is how many digits the number has. */
  lemma {:induction false} SignificantDigits(t: seq<char>)
    requires Numeral(t)
    ensures IntOf(t) < NatPow(10, Significant(t))
    ensures if Significant(t) == 0 then IntOf(t) == 0 else IntOf(t) >= NatPow(10, Significant(t) - 1)
  {
    hide NatPow;
    NineTens();
    if t != [] {
      var before := t[..|t| - 1];
      SignificantDigits(before);
      NatPowNext(10, Significant(before));
      if Significant(before) > 0 {
        NatPowNext(10, Significant(before) - 1);
      }
    }
  }

  lemma OneMoreSignificant(s: seq<char>, pos: nat)
    requires pos < |s| && Numeral(s[..pos]) && Numeral(s[..pos + 1])
    ensures Significant(s[..pos + 1])
            == Significant(s[..pos]) + if s[pos] == '.' || (s[pos] == '0' && IntOf(s[..pos]) == 0) then 0 else 1
  {
    assert s[..pos + 1] == s[..pos] + [s[pos]];
    assert s[..pos + 1][..pos] == s[..pos];
  }

  lemma NotZero(t: seq<char>)
    requires Numeral(t)
    ensures Significant(t) > 0 <==> IntOf(t) > 0
  {
    hide NatPow;
    SignificantDigits(t);
    if Significant(t) > 0 {
      NatPowPositive(Significant(t) - 1);
    }
  }

  lemma {:induction false} NatPowPositive(n: nat)
    ensures NatPow(10, n) > 0
  {
    if n > 0 {
      NatPowPositive(n - 1);
    }
  }

  /** The number that the text and a decimal exponent stand for. */
  function Literal(t: seq<char>, e10: int): real
    requires Numeral(t)
  {
    Scaled(IntOf(t), e10 - Places(t), 0)
  }

  /** Digits only. */
  predicate Whole(t: seq<char>) {
    forall i :: 0 <= i < |t| ==> IsDigit(t[i])
  }

  /** The digits printed for a number are that number. */
  lemma {:induction false} PrintedDigits(v: nat)
    ensures var t := PrintfText.DigitsText(v, 10, false); Whole(t) && Numeral(t) && IntOf(t) == v
    decreases v
  {
    var t := PrintfText.DigitsText(v, 10, false);
    if v >= 10 {
      PrintedDigits(v / 10);
      assert t[..|t| - 1] == PrintfText.DigitsText(v / 10, 10, false);
    }
  }

  /** More digits behind a number move it up by as many places. */
  lemma {:induction false} Joined(w: seq<char>, f: seq<char>)
    requires Whole(w) && Whole(f)
    ensures Numeral(w) && Numeral(f) && Numeral(w + f)
    ensures IntOf(w + f) == IntOf(w) * NatPow(10, |f|) + IntOf(f)
  {
    hide IntOf, NatPow, Whole;
    NatPowNext(10, 0);
    if f == [] {
      NoDigits();
      assert w + f == w;
      OnlyDigits(w);
    } else {
      var g, c := f[..|f| - 1], f[|f| - 1];
      OnlyDigits(f);
      Joined(w, g);
      OneDigit(g, c);
      OneDigit(w + g, c);
      assert f == g + [c] && w + f == w + g + [c];
      NatPowNext(10, |g|);
      TenTimes(IntOf(w), NatPow(10, |g|), IntOf(g));
    }
  }

  lemma NoDigits()
    ensures IntOf([]) == 0
  {
  }

  lemma OnlyDigits(t: seq<char>)
    requires Whole(t)
    ensures Numeral(t) && (t != [] ==> Whole(t[..|t| - 1]) && IsDigit(t[|t| - 1]))
  {
  }

  lemma OneDigit(t: seq<char>, c: char)
    requires Numeral(t) && IsDigit(c)
    ensures Numeral(t + [c]) && IntOf(t + [c]) == 10 * IntOf(t) + DigitOf(c)
  {
    assert (t + [c])[..|t|] == t;
  }

  lemma TenTimes(a: nat, p: nat, b: nat)
    ensures 10 * (a * p + b) == a * (p * 10) + 10 * b
  {
  }

  /** A point changes no digit; the places are counted from it. */
  lemma {:induction false} Pointed(w: seq<char>, f: seq<char>)
    requires Whole(w) && Whole(f)
    ensures Numeral(w + "." + f) && Numeral(w + f) && Numeral(w)
    ensures IntOf(w + "." + f) == IntOf(w + f) && Places(w + "." + f) == |f| && Places(w) == 0
  {
    var t := w + "." + f;
    if f == [] {
      assert t[..|t| - 1] == w && w + f == w;
    } else {
      var g := f[..|f| - 1];
      Pointed(w, g);
      assert t[..|t| - 1] == w + "." + g && t[|w|] == '.';
      assert (w + f)[..|w + f| - 1] == w + g;
    }
  }

  /** A whole number, a point, more digits and an exponent of ten mean what is usual: with
      the point taken to the end, the two numbers side by side. */
  lemma PointAndExponent(v: nat, f: seq<char>, e10: int)
    requires Whole(f)
    ensures var t := PrintfText.DigitsText(v, 10, false) + "." + f;
            && Numeral(t) && Numeral(f)
            && Literal(t, e10) == ((v * NatPow(10, |f|) + IntOf(f)) as real) * RealPow(10, e10 - |f|)
  {
    hide RealPow, NatPow, IntOf, Places, Numeral, Whole, PrintfText.DigitsText;
    PrintedDigits(v);
    var w := PrintfText.DigitsText(v, 10, false);
    Joined(w, f);
    Pointed(w, f);
    RealPowZero();
    TimesOne((IntOf(w + f) as real) * RealPow(10, e10 - |f|), RealPow(2, 0));
  }

  lemma TimesOne(a: real, b: real)
    requires b == 1.0
    ensures a * b == a
  {
  }

  lemma RealPowZero()
    ensures RealPow(2, 0) == 1.0
  {
  }

  lemma OneMoreChar(s: seq<char>, pos: nat)
    requires pos < |s| && Numeral(s[..pos])
    requires IsDigit(s[pos]) || (s[pos] == '.' && '.' !in s[..pos])
    ensures Numeral(s[..pos + 1])
    ensures s[pos] == '.' ==> IntOf(s[..pos + 1]) == IntOf(s[..pos]) && Places(s[..pos + 1]) == 0
    ensures s[pos] != '.' ==> IntOf(s[..pos + 1]) == 10 * IntOf(s[..pos]) + DigitOf(s[pos])
    ensures s[pos] != '.' ==> Places(s[..pos + 1]) == if '.' in s[..pos] then Places(s[..pos]) + 1 else 0
    ensures '.' in s[..pos + 1] <==> '.' in s[..pos] || s[pos] == '.'
  {
    assert s[..pos + 1] == s[..pos] + [s[pos]];
    assert s[..pos + 1][..pos] == s[..pos];
  }

  /** What the buffer holds while digits come in: k full groups of nine and j more digits. */
  function Read(x: seq<nat>, k: nat, j: nat): nat
    requires k < |x|
  {
    N(x[..k]) * NatPow(10, j) + if j == 0 then 0 else x[k]
  }

  predicate Group(v: nat, j: nat) {
    v < NatPow(10, j)
  }

  lemma Tens()
    ensures NatPow(10, 0) == 1 && NatPow(10, 1) == 10 && NatPow(10, 2) == 100 && NatPow(10, 3) == 1000
    ensures NatPow(10, 4) == 10000 && NatPow(10, 5) == 100000 && NatPow(10, 6) == 1000000
    ensures NatPow(10, 7) == 10000000 && NatPow(10, 8) == 100000000 && NatPow(10, 9) == BASE
  {
    assert NatPow(10, 4) == 10000;
  }

  /** Taking in one more digit. */
  lemma ReadDigit(x: seq<nat>, k: nat, j: nat, digit: nat)
    requires k + 1 < |x| && j < 9 && digit < 10 && (j > 0 ==> Group(x[k], j))
    ensures var v := (if j > 0 then x[k] * 10 else 0) + digit;
            var y := x[k := v];
            && Group(v, j + 1)
            && (j + 1 < 9 ==> Read(y, k, j + 1) == 10 * Read(x, k, j) + digit)
            && (j + 1 == 9 ==> Read(y, k + 1, 0) == 10 * Read(x, k, j) + digit && v < BASE)
  {
    hide N, NatPow;
    NatPowNext(10, j);
    NatPowNext(10, 0);
    var v := (if j > 0 then x[k] * 10 else 0) + digit;
    var y := x[k := v];
    assert y[..k] == x[..k] && y[..k + 1] == x[..k] + [v];
    Regroup(N(x[..k]), NatPow(10, j), 10);
    if j + 1 == 9 {
      NineTens();
      NPush(x[..k], v);
    }
  }

  /** Reads a run of digits with at most one point. Unless there are more digits than the
      buffer takes, it holds the number without the point. lrp says where the point goes. */
  method ReadDigits(s: seq<char>, x: array<nat>) returns (pos: nat, k: nat, j: nat, dc: nat, lrp: int, full: bool)
    requires x.Length == KMAX
    modifies x
    ensures pos <= |s| && Numeral(s[..pos]) && (pos < |s| ==> !IsDigit(s[pos]) && (s[pos] == '.' ==> '.' in s[..pos]))
    ensures dc == Significant(s[..pos]) && lrp + Places(s[..pos]) == dc && (full <==> dc > 9 * (KMAX - 3))
    ensures !full ==>
              && k <= KMAX - 3 && j < 9 && dc == 9 * k + j
              && IntOf(s[..pos]) == Read(x[..], k, j)
              && (forall i :: 0 <= i < k ==> x[i] < BASE) && (j > 0 ==> Group(x[k], j))
              && (if dc == 0 then IntOf(s[..pos]) == 0 && x[0] == 0 else x[0] > 0)
  {
    hide N, NatPow, IntOf, Places, Significant, Read, Numeral, Group;
    NoChars(s);
    pos, dc, lrp, k, j, full := 0, 0, 0, 0, 0, false;
    var gotrad := false;
    pos, lrp, gotrad := SkipZeros(s);
    x[0] := 0;
    NothingRead(x[..]);
    NotZero(s[..pos]);
    while pos < |s| && (IsDigit(s[pos]) || s[pos] == '.')
      invariant pos <= |s| && Numeral(s[..pos]) && (gotrad <==> '.' in s[..pos]) && k <= KMAX - 3 && j < 9
      invariant lrp == if gotrad then dc - Places(s[..pos]) else 0
      invariant !gotrad ==> Places(s[..pos]) == 0
      invariant (k == KMAX - 3 ==> j == 0) && (full ==> k == KMAX - 3)
      invariant dc == Significant(s[..pos]) && (full <==> dc > 9 * (KMAX - 3))
      invariant !full ==> dc == 9 * k + j && IntOf(s[..pos]) == Read(x[..], k, j)
      invariant !full ==> (forall i :: 0 <= i < k ==> x[i] < BASE) && (j > 0 ==> Group(x[k], j))
      invariant !full && dc == 0 ==> IntOf(s[..pos]) == 0 && x[0] == 0
      invariant !full && dc == 0 && pos < |s| ==> s[pos] != '0' && (s[pos] == '.' ==> gotrad)
      invariant !full && dc > 0 ==> x[0] > 0
      decreases |s| - pos
    {
      var c := s[pos];
      if c == '.' && gotrad {
        break;
      }
      OneMoreChar(s, pos);
      OneMoreSignificant(s, pos);
      NotZero(s[..pos]);
      if c == '.' {
        gotrad := true;
        lrp := dc;
      } else if k < KMAX - 3 {
        ReadDigit(x[..], k, j, DigitOf(c));
        dc := dc + 1;
        if j > 0 {
          x[k] := x[k] * 10 + DigitOf(c);
        } else {
          x[k] := DigitOf(c);
        }
        j := j + 1;
        if j == 9 {
          k, j := k + 1, 0;
        }
      } else {
        dc := dc + 1;
        full := true;
      }
      pos := pos + 1;
    }
    if !gotrad {
      lrp := dc;
    }
  }

  lemma NoChars(s: seq<char>)
    ensures Numeral(s[..0]) && IntOf(s[..0]) == 0 && Places(s[..0]) == 0 && '.' !in s[..0]
  {
  }

  lemma NothingRead(x: seq<nat>)
    requires |x| > 0
    ensures Read(x, 0, 0) == 0
  {
    assert x[..0] == [];
  }

  /** Leading zeros take no room; those behind a leading point move it. */
  method SkipZeros(s: seq<char>) returns (pos: nat, lrp: int, gotrad: bool)
    ensures pos <= |s| && Numeral(s[..pos]) && IntOf(s[..pos]) == 0 && (gotrad <==> '.' in s[..pos])
    ensures lrp + Places(s[..pos]) == 0 && (!gotrad ==> lrp == 0)
    ensures pos < |s| ==> s[pos] != '0' && (s[pos] == '.' ==> gotrad)
  {
    hide IntOf, Places, Numeral;
    NoChars(s);
    pos, lrp, gotrad := 0, 0, false;
    while pos < |s| && s[pos] == '0'
      invariant pos <= |s| && Numeral(s[..pos]) && IntOf(s[..pos]) == 0 && '.' !in s[..pos] && Places(s[..pos]) == 0
    {
      OneMoreChar(s, pos);
      pos := pos + 1;
    }
    if pos < |s| && s[pos] == '.' {
      OneMoreChar(s, pos);
      gotrad, pos := true, pos + 1;
      while pos < |s| && s[pos] == '0'
        invariant pos <= |s| && Numeral(s[..pos]) && IntOf(s[..pos]) == 0 && '.' in s[..pos]
        invariant lrp + Places(s[..pos]) == 0
      {
        OneMoreChar(s, pos);
        pos, lrp := pos + 1, lrp - 1;
      }
    }
  }

  // From the text to 113 bits.

  /** Fills the last group up with zeros. */
  method FillGroup(x: array<nat>, k0: nat, j0: nat) returns (k: nat)
    requires x.Length == KMAX && k0 <= KMAX - 3 && j0 < 9 && (j0 > 0 ==> Group(x[k0], j0))
    modifies x
    ensures k == (if j0 > 0 then k0 + 1 else k0) && x[..k0] == old(x[..k0])
    ensures j0 > 0 ==> x[k0] < BASE && (old(x[k0]) > 0 ==> x[k0] > 0)
    ensures N(x[..k]) == old(Read(x[..], k0, j0)) * NatPow(10, 9 * (k - k0) - j0)
  {
    hide N, NatPow, Group, Read;
    k := k0;
    var j := j0;
    ghost var x0 := x[..];
    if j > 0 {
      NatPowNext(10, 0);
      FilledUp(x0, k0, j0, j0, x[k0]);
      while j < 9
        invariant j0 <= j <= 9 && x[..k0] == x0[..k0] && Group(x[k0], j)
        invariant N(x[..k0]) * NatPow(10, j) + x[k0] == Read(x0, k0, j0) * NatPow(10, j - j0)
        invariant x0[k0] > 0 ==> x[k0] > 0
      {
        FilledOne(N(x[..k0]), x[k0], Read(x0, k0, j0), j, j0);
        x[k0] := x[k0] * 10;
        j := j + 1;
      }
      k := k + 1;
      FilledNine(x[k0]);
      NineTens();
      NPush(x[..k0], x[k0]);
      assert x[..k] == x[..k0] + [x[k0]];
    } else {
      ReadWhole(x0, k0);
      assert x[..] == x0;
    }
  }

  lemma FilledUp(x: seq<nat>, k: nat, j: nat, i: nat, v: nat)
    requires k < |x| && j > 0 && i == j && v == x[k]
    ensures N(x[..k]) * NatPow(10, i) + v == Read(x, k, j) * NatPow(10, i - j)
  {
    NatPowNext(10, 0);
  }

  lemma FilledOne(n: nat, v: nat, r: nat, j: nat, j0: nat)
    requires j0 <= j < 9 && n * NatPow(10, j) + v == r * NatPow(10, j - j0) && Group(v, j)
    ensures n * NatPow(10, j + 1) + v * 10 == r * NatPow(10, j + 1 - j0) && Group(v * 10, j + 1)
  {
    hide NatPow;
    NatPowNext(10, j);
    NatPowNext(10, j - j0);
    Regroup(n, NatPow(10, j), 10);
    Regroup(r, NatPow(10, j - j0), 10);
  }

  lemma FilledNine(v: nat)
    requires Group(v, 9)
    ensures v < BASE
  {
    NineTens();
  }

  lemma ReadWhole(x: seq<nat>, k: nat)
    requires k < |x|
    ensures Read(x, k, 0) * NatPow(10, 0) == N(x[..k])
  {
    NatPowNext(10, 0);
  }

  /** Drops trailing zero groups. */
  method DropZeros(x: array<nat>, k: nat) returns (z: nat)
    requires x.Length == KMAX && 0 < k < KMAX && x[0] > 0
    ensures 0 < z <= k && forall i :: z <= i < k ==> x[i] == 0
  {
    z := k;
    while x[z - 1] == 0
      invariant 0 < z <= k && forall i :: z <= i < k ==> x[i] == 0
      decreases z
    {
      z := z - 1;
    }
  }

  /** C's remainder, with the sign of the dividend. */
  function Rem9(rp: int): int {
    if rp >= 0 then rp % 9 else -((-rp) % 9)
  }

  /** Moves the radix point to the next boundary between groups. */
  method AlignRadix(x: array<nat>, z0: nat, rp0: int) returns (a: nat, z: nat, rp: int)
    requires x.Length == KMAX && 0 < z0 < KMAX - 1 && x[0] > 0 && Digits(Held(x[..], 0, z0))
    modifies x
    ensures a < KMAX && z < KMAX && Scalable(Held(x[..], a, z), rp)
    ensures Span(a, z) <= z0 + 1 && rp0 - 8 <= rp <= rp0 + 8
    ensures Value(Held(x[..], a, z), rp, 0) == Value(old(Held(x[..], 0, z0)), rp0, 0)
  {
    hide Value, N, Quot, Rest, NatPow;
    a, z, rp := 0, z0, rp0;
    ghost var d := Held(x[..], 0, z0);
    assert x[0] == d[0];
    if Rem9(rp) != 0 {
      var rpm9 := if rp >= 0 then Rem9(rp) else Rem9(rp) + 9;
      var p10 := P10S[8 - rpm9];
      TableEntry(rpm9, rp);
      AlignedValue(d, rpm9, rp, 0);
      Aligned(d, p10, rp + 9 - rpm9);
      QuotDigits(d, p10);
      SecondDigit(d, p10);
      var carry;
      a, carry := Divide(x, 0, z, p10);
      if a != 0 {
        rp := rp - 9;
        HeldNext(x[..], 0, z);
      }
      if carry != 0 {
        HeldPushed(x[..], a, z, carry);
        x[z] := carry;
        z := z + 1;
      }
      rp := rp + 9 - rpm9;
      ghost var e := Quot(d, p10) + if Rest(d, p10) == 0 then [] else [Rest(d, p10)];
      assert Held(x[..], a, z) == if Quot(d, p10)[0] == 0 then e[1..] else e;
    }
  }

  lemma TableEntry(r: int, rp: int)
    requires r == (if rp >= 0 then Rem9(rp) else Rem9(rp) + 9) && Rem9(rp) != 0
    ensures 0 < r < 9 && P10S[8 - r] == NatPow(10, 9 - r) && Divisor(P10S[8 - r]) && (rp + 9 - r) % 9 == 0
    ensures NatPow(10, 9 - r) * NatPow(10, r) == BASE
  {
    hide NatPow;
    Tens();
    assert rp % 9 == r;
  }

  /** Leaving a zero out at either end changes nothing. */
  lemma Aligned(d: seq<nat>, q: nat, rp: int)
    requires q > 0 && d != []
    ensures var e := Quot(d, q) + if Rest(d, q) == 0 then [] else [Rest(d, q)];
            Value(if Quot(d, q)[0] == 0 then e[1..] else e, if Quot(d, q)[0] == 0 then rp - 9 else rp, 0)
            == Value(Quot(d, q) + [Rest(d, q)], rp, 0)
  {
    hide Quot, Rest, Value;
    var e := Quot(d, q) + if Rest(d, q) == 0 then [] else [Rest(d, q)];
    if Rest(d, q) == 0 {
      assert e == Quot(d, q);
      TrailingZero(Quot(d, q), rp, 0);
    }
    if e[0] == 0 {
      LeadingZeroValue(e, rp, 0);
    }
  }

  /** The buffer is large enough for this number: it has not too many digits and decimal
      places, and is not too large. */
  predicate Fits(t: seq<char>, e10: int)
    requires Numeral(t)
  {
    var point := Significant(t) - Places(t) + e10;
    Places(t) - e10 < 17995 && 3 * Significant(t) + 7 * point < 54403
  }

  /** The text of a number that is not zero, with a decimal exponent, becomes four digits
      before the radix point that hold 113 bits, and a binary exponent; the whole buffer
      still stands for exactly that number, unless it filled up on the way, which it does
      not if the number fits. */
  method ScanDecimal(s: seq<char>, e10: int, x: array<nat>)
    returns (pos: nat, a: nat, z: nat, e2: int, zero: bool, full: bool)
    requires x.Length == KMAX
    modifies x
    ensures pos <= |s| && Numeral(s[..pos]) && (pos < |s| ==> !IsDigit(s[pos]) && (s[pos] == '.' ==> '.' in s[..pos]))
    ensures a < KMAX && z < KMAX
    ensures Fits(s[..pos], e10) ==> !full
    ensures !full ==> (zero <==> IntOf(s[..pos]) == 0)
    ensures !full && !zero ==>
              && Value(Held(x[..], a, z), 36, e2) == Literal(s[..pos], e10)
              && Pow2(112) <= Top(Held(x[..], a, z), 4) <= Pow2(113) - 1
  {
    hide Value, N, NatPow, IntOf, Places, Significant, Top, Pow2, Read, Literal, Group;
    var k, j, dc, lrp;
    a, z, e2, zero := 0, 0, 0, false;
    pos, k, j, dc, lrp, full := ReadDigits(s, x);
    NotZero(s[..pos]);
    if full {
      return;
    }
    if x[0] == 0 {
      zero := true;
      return;
    }
    ghost var r := Read(x[..], k, j);
    k := FillGroup(x, k, j);
    z := DropZeros(x, k);
    var rp := lrp + e10;
    AsRead(x[..], k, z, r, dc, rp, s[..pos], e10);
    a, z, rp := AlignRadix(x, z, rp);
    a, z, rp, e2, full := Upscale(x, a, z, rp);
    if full {
      return;
    }
    a, z, rp, e2, full := Downscale(x, a, z, rp, e2);
    MaxIsPow2();
    HalfOfMax();
  }

  lemma AsRead(x: seq<nat>, k: nat, z: nat, r: nat, dc: nat, rp: int, t: seq<char>, e10: int)
    requires |x| == KMAX && 0 < z <= k < KMAX && (forall i :: z <= i < k ==> x[i] == 0)
    requires dc <= 9 * k && N(x[..k]) == r * NatPow(10, 9 * k - dc)
    requires Numeral(t) && IntOf(t) == r && rp == dc - Places(t) + e10
    ensures Value(Held(x, 0, z), rp, 0) == Literal(t, e10)
  {
    hide N, NatPow, IntOf, Places, RealPow;
    assert Held(x, 0, z) == x[..k][..z];
    TrailingZeros(x[..k], z, rp, 0);
    NineTens();
    Moved(r, N(x[..k]), e10 - Places(t), 9 * k - dc, 0, 0);
  }
}
