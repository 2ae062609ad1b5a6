/** Well-formed UTF-8 is what encoding text gives. */
module Unicode {
  import opened Bytes

  /** Scalar values are the code points other than surrogates. */
  type Scalar = c: int | 0 <= c < 0xD800 || 0xE000 <= c <= 0x10_FFFF

  /** Six more bits in each byte behind the first. */
  function EncodeScalar(c: Scalar): (s: seq<byte>)
    ensures s != []
  {
    if c < 0x80 then [c]
    else if c < 0x800 then [0xC0 + c / 0x40, 0x80 + c % 0x40]
    else if c < 0x1_0000 then [0xE0 + c / 0x1000, 0x80 + c / 0x40 % 0x40, 0x80 + c % 0x40]
    else [0xF0 + c / 0x4_0000, 0x80 + c / 0x1000 % 0x40, 0x80 + c / 0x40 % 0x40, 0x80 + c % 0x40]
  }

  function EncodeText(t: seq<Scalar>): seq<byte> {
    if t == [] then [] else EncodeScalar(t[0]) + EncodeText(t[1..])
  }

  lemma OneScalar(c: Scalar, rest: seq<byte>)
    ensures Utf8(EncodeScalar(c) + rest) <==> Utf8(rest)
  {
    var e := EncodeScalar(c);
    var s := e + rest;
    assert s[|e|..] == rest && forall i :: 0 <= i < |e| ==> s[i] == e[i];
    assert |e| == 1 ==> s[1..] == rest;
    assert |e| == 2 ==> s[2..] == rest;
    assert |e| == 3 ==> s[3..] == rest;
    assert |e| == 4 ==> s[4..] == rest;
  }

  lemma {:induction false} EncodedText(t: seq<Scalar>)
    ensures Utf8(EncodeText(t))
  {
    hide EncodeScalar, Utf8;
    if t == [] {
      NoBytes();
    } else {
      EncodedText(t[1..]);
      OneScalar(t[0], EncodeText(t[1..]));
    }
  }

  lemma NoBytes()
    ensures Utf8([])
  {
  }

  lemma SixBits(high: nat, low: nat)
    requires low < 0x40
    ensures (high * 0x40 + low) / 0x40 == high && (high * 0x40 + low) % 0x40 == low
  {
  }

  lemma TwelveBits(x: nat)
    ensures x / 0x1000 == x / 0x40 / 0x40 && x / 0x4_0000 == x / 0x40 / 0x40 / 0x40
  {
  }

  lemma JoinedTwo(s: seq<byte>)
    requires |s| >= 2 && 0xC2 <= s[0] <= 0xDF && Continuation(s[1])
    ensures var x := (s[0] as int - 0xC0) * 0x40 + (s[1] as int - 0x80); 0x80 <= x < 0x800 && EncodeScalar(x) == s[..2]
  {
  }

  lemma JoinedThree(s: seq<byte>)
    requires |s| >= 3 && 0xE0 <= s[0] <= 0xEF && Continuation(s[1]) && Continuation(s[2])
    requires (s[0] == 0xE0 ==> s[1] >= 0xA0) && (s[0] == 0xED ==> s[1] <= 0x9F)
    ensures var x := ((s[0] as int - 0xE0) * 0x40 + (s[1] as int - 0x80)) * 0x40 + (s[2] as int - 0x80);
            0x800 <= x < 0x1_0000 && !(0xD800 <= x < 0xE000) && EncodeScalar(x) == s[..3]
  {
    var high := (s[0] as int - 0xE0) * 0x40 + (s[1] as int - 0x80);
    SixBits(s[0] as int - 0xE0, s[1] as int - 0x80);
    SixBits(high, s[2] as int - 0x80);
    TwelveBits(high * 0x40 + (s[2] as int - 0x80));
  }

  lemma JoinedFour(s: seq<byte>)
    requires |s| >= 4 && 0xF0 <= s[0] <= 0xF4 && Continuation(s[1]) && Continuation(s[2]) && Continuation(s[3])
    requires (s[0] == 0xF0 ==> s[1] >= 0x90) && (s[0] == 0xF4 ==> s[1] <= 0x8F)
    ensures var high := ((s[0] as int - 0xF0) * 0x40 + (s[1] as int - 0x80)) * 0x40 + (s[2] as int - 0x80);
            var x := high * 0x40 + (s[3] as int - 0x80);
            0x1_0000 <= x <= 0x10_FFFF && EncodeScalar(x) == s[..4]
  {
    var top := (s[0] as int - 0xF0) * 0x40 + (s[1] as int - 0x80);
    var high := top * 0x40 + (s[2] as int - 0x80);
    SixBits(s[0] as int - 0xF0, s[1] as int - 0x80);
    SixBits(top, s[2] as int - 0x80);
    SixBits(high, s[3] as int - 0x80);
    TwelveBits(high * 0x40 + (s[3] as int - 0x80));
  }

  /** The scalar value that well-formed bytes begin with. */
  function FirstScalar(s: seq<byte>): (r: (Scalar, nat))
    requires s != [] && Utf8(s)
    ensures 1 <= r.1 <= |s| && EncodeScalar(r.0) == s[..r.1] && Utf8(s[r.1..])
  {
    hide EncodeScalar;
    if s[0] <= 0x7F then
      OneByte(s);
      (s[0], 1)
    else if s[0] <= 0xDF then
      JoinedTwo(s);
      ((s[0] as int - 0xC0) * 0x40 + (s[1] as int - 0x80), 2)
    else if s[0] <= 0xEF then
      JoinedThree(s);
      (((s[0] as int - 0xE0) * 0x40 + (s[1] as int - 0x80)) * 0x40 + (s[2] as int - 0x80), 3)
    else
      JoinedFour(s);
      ((((s[0] as int - 0xF0) * 0x40 + (s[1] as int - 0x80)) * 0x40 + (s[2] as int - 0x80)) * 0x40
       + (s[3] as int - 0x80), 4)
  }

  lemma OneByte(s: seq<byte>)
    requires s != [] && s[0] <= 0x7F
    ensures EncodeScalar(s[0]) == s[..1]
  {
  }

  function DecodeText(s: seq<byte>): (t: seq<Scalar>)
    requires Utf8(s)
    ensures EncodeText(t) == s
  {
    if s == [] then []
    else
      var (c, n) := FirstScalar(s);
      var t := [c] + DecodeText(s[n..]);
      assert t[1..] == DecodeText(s[n..]) && s == s[..n] + s[n..];
      t
  }

  /** Bytes are accepted exactly if they encode some text. */
  lemma Utf8Exactly(s: seq<byte>)
    ensures Utf8(s) <==> exists t :: EncodeText(t) == s
  {
    if t :| EncodeText(t) == s {
      EncodedText(t);
    }
    if Utf8(s) {
      assert EncodeText(DecodeText(s)) == s;
    }
  }
}
