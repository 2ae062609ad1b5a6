/** SQLite's read callback: a short read must fill the rest of the buffer with zeros. */
module ReadCallback {
  import opened Bytes
  import opened MemChunks

  datatype Code = SqliteOk | IoRead | IoShortRead | BackendError(raw: int)

  const SHORT_READ_CODE: int := 522

  /** What a backend's read reports. */
  datatype BackendRead = Count(n: nat) | Error(raw: int)

  /** Turns the backend's answer into what SQLite expects, for any backend: the bytes it
      claims to have read stay, all others become zero unless the read failed. */
  method Finish(z: array<byte>, size: nat, answer: BackendRead) returns (code: Code)
    requires size <= z.Length
    modifies z
    ensures match answer
            case Error(raw) =>
              code == (if raw == SHORT_READ_CODE then IoRead else BackendError(raw)) && z[..] == old(z[..])
            case Count(n) =>
              if n > size then code == IoRead && z[..] == old(z[..])
              else
                && code == (if n < size then IoShortRead else SqliteOk)
                && z[..size] == old(z[..n]) + Zeros(size - n) && z[size..] == old(z[size..])
  {
    if answer.Error? {
      return if answer.raw == SHORT_READ_CODE then IoRead else BackendError(answer.raw);
    }
    var n := answer.n;
    if n > size {
      return IoRead;
    }
    if n < size {
      forall i | n <= i < size {
        z[i] := 0;
      }
      assert z[..size] == old(z[..n]) + Zeros(size - n);
      return IoShortRead;
    }
    assert z[..size] == old(z[..n]) + Zeros(0);
    return SqliteOk;
  }

  /** The callback over a memory file: the buffer becomes the file's bytes followed by
      zeros, whatever was in it, and a short read is reported exactly when the file ends
      inside it. */
  method XRead(file: MemChunksFile, z: array<byte>, amount: int, offset: int) returns (code: Code)
    requires file.Valid() && z.Length == (if amount < 0 then 0 else amount) && amount <= 0x7FFF_FFFF
    requires offset <= 0x7FFF_FFFF_FFFF_FFFF
    modifies z
    ensures amount < 0 || offset < 0 ==> code == IoRead && z[..] == old(z[..])
    ensures amount >= 0 && offset >= 0 ==>
              && (code == SqliteOk <==> amount == 0 || offset + amount <= |file.Contents()|)
              && (code == IoShortRead <==> amount > 0 && offset + amount > |file.Contents()|)
              && forall i :: 0 <= i < amount ==>
                   z[i] == if offset + i < |file.Contents()| then file.Contents()[offset + i] else 0
  {
    hide Tight, Utf8;
    if amount < 0 || offset < 0 {
      return IoRead;
    }
    if amount == 0 {
      assert z[..] == [];
      return SqliteOk;
    }
    ghost var image := file.Contents();
    forall i | 0 <= i < amount {
      z[i] := 0;
    }
    var count := file.Read(z, offset);
    assert |z[..count]| == count;
    code := Finish(z, amount, Count(count));
    assert z[..amount] == z[..];
    assert file.Contents() == image;
    ghost var found := Slice(image, offset, amount);
    assert |found| == count && z[..] == found + Zeros(amount - count);
    assert forall i :: 0 <= i < amount ==> z[i] == z[..][i];
  }
}
