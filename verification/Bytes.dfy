/** Bytes and well-formed UTF-8. */
module Bytes {

  type byte = x: int | 0 <= x < 256

  function Zeros(n: nat): (z: seq<byte>)
    ensures |z| == n && forall i :: 0 <= i < n ==> z[i] == 0
  {
    seq(n, _ => 0)
  }

  /** A flat file after writing data at an offset: a gap past the end reads as zero. */
  function Patched(file: seq<byte>, offset: nat, data: seq<byte>): (r: seq<byte>)
    ensures |r| == (if data == [] || offset + |data| <= |file| then |file| else offset + |data|)
    ensures data != [] ==> r[offset..offset + |data|] == data
    ensures forall i :: 0 <= i < |r| && !(offset <= i < offset + |data|) ==> r[i] == if i < |file| then file[i] else 0
  {
    if data == [] then file
    else
      var size := if offset + |data| <= |file| then |file| else offset + |data|;
      seq(size, i requires 0 <= i < size =>
        if offset <= i < offset + |data| then data[i - offset] else if i < |file| then file[i] else 0)
  }

  /** A flat file cut or extended to a size; what is new is zero. */
  function Resized(file: seq<byte>, size: nat): (r: seq<byte>)
    ensures |r| == size && forall i :: 0 <= i < size ==> r[i] == if i < |file| then file[i] else 0
  {
    seq(size, i requires 0 <= i < size => if i < |file| then file[i] else 0)
  }

  /** What a read of that many bytes at an offset finds in a flat file. */
  function Slice(file: seq<byte>, offset: nat, length: nat): (r: seq<byte>)
    ensures |r| == (if offset >= |file| then 0 else if length <= |file| - offset then length else |file| - offset)
    ensures forall i :: 0 <= i < |r| ==> r[i] == file[offset + i]
  {
    if offset >= |file| then [] else if offset + length <= |file| then file[offset..offset + length] else file[offset..]
  }

  predicate Continuation(b: byte) {
    0x80 <= b <= 0xBF
  }

  /** Well-formed UTF-8 byte sequences, table 3-7 of the Unicode Standard. */
  predicate Utf8(s: seq<byte>) {
    if s == [] then true
    else if s[0] <= 0x7F then Utf8(s[1..])
    else if 0xC2 <= s[0] <= 0xDF then |s| >= 2 && Continuation(s[1]) && Utf8(s[2..])
    else if 0xE0 <= s[0] <= 0xEF then
      && |s| >= 3 && Continuation(s[1]) && Continuation(s[2])
      && (s[0] == 0xE0 ==> s[1] >= 0xA0) && (s[0] == 0xED ==> s[1] <= 0x9F)
      && Utf8(s[3..])
    else if 0xF0 <= s[0] <= 0xF4 then
      && |s| >= 4 && Continuation(s[1]) && Continuation(s[2]) && Continuation(s[3])
      && (s[0] == 0xF0 ==> s[1] >= 0x90) && (s[0] == 0xF4 ==> s[1] <= 0x8F)
      && Utf8(s[4..])
    else false
  }
}
