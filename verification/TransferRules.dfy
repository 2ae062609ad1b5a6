/** What a database transfer accepts: the header check, and the verdict on each chunk. */
module TransferRules {
  import opened Bits
  import opened Bytes
  import opened MemChunks

  datatype ImportMode = Checked | Unchecked

  datatype TransferError =
    | InvalidDbSize | InvalidHeader | InvalidPageSize
    | SizeMismatch(expected: nat, actual: nat) | OffsetOverflow | ImportFailed
    | FileTooLarge | OutOfMemory | ShortRead(wanted: nat, got: nat)
    | InvalidFilename | AlreadyExists | NotFound | Backend(error: FileError)

  datatype Result<T> = Success(value: T) | Failure(error: TransferError)

  const OK: Result<()> := Success(())

  const MAGIC: seq<byte> :=
    [0x53, 0x51, 0x4C, 0x69, 0x74, 0x65, 0x20, 0x66, 0x6F, 0x72, 0x6D, 0x61, 0x74, 0x20, 0x33, 0x00]

  function ValidateSize(size: nat): Result<()> {
    if size < 512 || size % 512 != 0 then Failure(InvalidDbSize) else OK
  }

  predicate PowerOfTwo(n: nat) {
    n > 0 && (n == 1 || (n % 2 == 0 && PowerOfTwo(n / 2)))
  }

  function PageSize(header: seq<byte>): nat
    requires |header| >= 18
  {
    var raw := 256 * (header[16] as nat) + header[17] as nat;
    if raw == 1 then 65536 else raw
  }

  function CheckImportHeader(header: seq<byte>, size: nat): (r: Result<()>)
    ensures r == OK || r.Failure?
  {
    if ValidateSize(size).Failure? then ValidateSize(size)
    else if |header| < 18 || header[..16] != MAGIC then Failure(InvalidHeader)
    else
      var page := PageSize(header);
      if !(PowerOfTwo(page) && 512 <= page <= 65536) then Failure(InvalidPageSize)
      else if size % page != 0 then Failure(InvalidDbSize)
      else OK
  }

  lemma {:induction false} PowersOfTwo(n: nat)
    ensures PowerOfTwo(n) <==> exists k: nat :: n == Pow2(k)
  {
    if n == 0 {
    } else if n == 1 {
      assert n == Pow2(0);
    } else {
      PowersOfTwo(n / 2);
      if PowerOfTwo(n) {
        var k: nat :| n / 2 == Pow2(k);
        assert n == Pow2(k + 1);
      }
      if exists k: nat :: n == Pow2(k) {
        var k: nat :| n == Pow2(k);
        assert k > 0;
        assert n / 2 == Pow2(k - 1);
      }
    }
  }

  lemma MultipleOfMultiple(size: nat, page: nat)
    requires page > 0 && page % 512 == 0 && size % page == 0
    ensures size % 512 == 0
  {
    var q, p := size / page, page / 512;
    assert size == q * page && page == p * 512;
    Regroup(q, p, 512);
    DivExact(q * p, 512);
  }

  lemma {:induction false} Pow2Thousand()
    ensures Pow2(8) == 256 && Pow2(9) == 512 && Pow2(16) == 65536 && Pow2(17) == 131072
  {
    assert Pow2(4) == 16;
    Pow2Add(4, 4);
    Pow2Add(8, 8);
  }

  /** The first 16 bytes are this text and a NUL. */
  predicate Signed(header: seq<byte>) {
    var text := "SQLite format 3\0";
    |header| >= 16 && forall i :: 0 <= i < 16 ==> header[i] as int == text[i] as int
  }

  /** Bytes 16 and 17 stand for a page size of 2^k, up to 32768 or written as 1. */
  predicate PageField(header: seq<byte>, k: nat)
    requires |header| >= 18
  {
    if k == 16 then header[16] == 0 && header[17] == 1
    else (header[16] as int) * 256 + header[17] as int == Pow2(k)
  }

  /** The header check says what the file format says: the signature, a page size that is
      a power of two from 512 to 65536 and is written big-endian, with 1 for 65536, and a
      whole positive number of pages. */
  lemma HeaderAccepted(header: seq<byte>, size: nat)
    ensures CheckImportHeader(header, size) == OK <==>
            && |header| >= 18 && Signed(header) && size > 0
            && exists k: nat :: 9 <= k <= 16 && size % Pow2(k) == 0 && PageField(header, k)
  {
    hide PowerOfTwo, Pow2, PageField;
    if |header| >= 18 {
      Signature(header);
      PageAccepted(PageSize(header), size);
      if k: nat :| 9 <= k <= 16 && PageField(header, k) && size % Pow2(k) == 0 {
        PageBytes(header, k);
      }
      if k: nat :| 9 <= k <= 16 && PageSize(header) == Pow2(k) && size % Pow2(k) == 0 {
        PageBytes(header, k);
      }
    }
  }

  /** And otherwise it says what is wrong: first the size as such, then the signature, then
      the page size, then the number of pages. */
  lemma HeaderRefused(header: seq<byte>, size: nat)
    ensures var r := CheckImportHeader(header, size);
            var signed := |header| >= 18 && Signed(header);
            if size < 512 || size % 512 != 0 then r == Failure(InvalidDbSize)
            else if !signed then r == Failure(InvalidHeader)
            else if !exists k: nat :: 9 <= k <= 16 && PageField(header, k) then r == Failure(InvalidPageSize)
            else r == OK || r == Failure(InvalidDbSize)
  {
    hide PowerOfTwo, Pow2, PageField;
    if |header| >= 18 && size >= 512 && size % 512 == 0 {
      Signature(header);
      PageRange(PageSize(header));
      if k: nat :| 9 <= k <= 16 && PageField(header, k) {
        PageBytes(header, k);
      }
      if k: nat :| 9 <= k <= 16 && PageSize(header) == Pow2(k) {
        PageBytes(header, k);
      }
    }
  }

  lemma PageRange(page: nat)
    ensures PowerOfTwo(page) && 512 <= page <= 65536 <==> exists k: nat :: 9 <= k <= 16 && page == Pow2(k)
  {
    hide PowerOfTwo, Pow2;
    PowersOfTwo(page);
    Pow2Thousand();
    if PowerOfTwo(page) && 512 <= page <= 65536 {
      var k: nat :| page == Pow2(k);
      InRange(k);
    }
    if k: nat :| 9 <= k <= 16 && page == Pow2(k) {
      Pow2Mono(9, k);
      Pow2Mono(k, 16);
    }
  }

  lemma PageBytes(header: seq<byte>, k: nat)
    requires |header| >= 18 && 9 <= k <= 16
    ensures PageSize(header) == Pow2(k) <==> PageField(header, k)
  {
    hide Pow2;
    Pow2Thousand();
    Pow2Mono(9, k);
    if k < 16 {
      Pow2Mono(k, 15);
      Pow2Fifteen();
    }
  }

  lemma Pow2Fifteen()
    ensures Pow2(15) == 32768
  {
    hide Pow2;
    Pow2Thousand();
    Pow2Half();
  }

  lemma Pow2Half()
    ensures Pow2(16) == 2 * Pow2(15)
  {
  }

  lemma Signature(header: seq<byte>)
    requires |header| >= 16
    ensures header[..16] == MAGIC <==> Signed(header)
  {
    var text := "SQLite format 3\0";
    assert forall i :: 0 <= i < 16 ==> MAGIC[i] as int == text[i] as int;
    assert header[..16] == MAGIC ==> forall i :: 0 <= i < 16 ==> header[..16][i] == header[i];
  }

  lemma PageAccepted(page: nat, size: nat)
    ensures (PowerOfTwo(page) && 512 <= page <= 65536 && size % page == 0 && ValidateSize(size) == OK)
       <==> (size > 0 && exists k: nat :: 9 <= k <= 16 && page == Pow2(k) && size % Pow2(k) == 0)
  {
    hide PowerOfTwo, Pow2;
    PowersOfTwo(page);
    Pow2Thousand();
    if PowerOfTwo(page) && 512 <= page <= 65536 {
      var k: nat :| page == Pow2(k);
      InRange(k);
    }
    if k: nat :| 9 <= k <= 16 && page == Pow2(k) && size % Pow2(k) == 0 {
      Pow2Mono(9, k);
      Pow2Mono(k, 16);
      Pow2Add(k - 9, 9);
      DivExact(Pow2(k - 9), 512);
      MultipleOfMultiple(size, page);
    }
  }

  lemma InRange(k: nat)
    requires 512 <= Pow2(k) <= 65536
    ensures 9 <= k <= 16
  {
    hide Pow2;
    Pow2Thousand();
    if k < 9 {
      Pow2Mono(k, 8);
    } else if k > 16 {
      Pow2Mono(17, k);
    }
  }

  // Streaming.

  function Concat(pieces: seq<seq<byte>>): seq<byte> {
    Join(pieces)
  }

  /** What an import says to the next chunk after it has taken `received`, unless the
      backend fails. */
  function Verdict(mode: ImportMode, size: nat, received: seq<byte>, bytes: seq<byte>): Result<()> {
    var end := |received| + |bytes|;
    if end > U64_MAX then Failure(OffsetOverflow)
    else if end > size then Failure(SizeMismatch(size, end))
    else if mode == Checked && |received| < 18 <= end then CheckImportHeader((received + bytes)[..18], size)
    else OK
  }

  /** All chunks are taken, and together they are complete. */
  predicate Accepted(mode: ImportMode, size: nat, received: seq<byte>, pieces: seq<seq<byte>>)
    decreases |pieces|
  {
    if pieces == [] then |received| == size
    else Verdict(mode, size, received, pieces[0]) == OK && Accepted(mode, size, received + pieces[0], pieces[1..])
  }

  /** The image as a whole is one that the import is for. */
  predicate Acceptable(mode: ImportMode, size: nat, image: seq<byte>) {
    && |image| == size
    && (mode == Checked ==> CheckImportHeader(image[..if |image| < 18 then |image| else 18], size) == OK)
  }

  predicate Started(mode: ImportMode, size: nat, received: seq<byte>) {
    && size <= U64_MAX && (mode == Checked ==> ValidateSize(size) == OK)
    && |received| <= size
    && (mode == Checked && |received| >= 18 ==> CheckImportHeader(received[..18], size) == OK)
  }

  lemma {:induction false} AcceptedWhole(mode: ImportMode, size: nat, received: seq<byte>, pieces: seq<seq<byte>>)
    requires Started(mode, size, received)
    ensures Accepted(mode, size, received, pieces) <==> Acceptable(mode, size, received + Concat(pieces))
    decreases |pieces|
  {
    hide CheckImportHeader;
    var image := received + Concat(pieces);
    if pieces == [] {
      assert image == received;
    } else {
      var more := received + pieces[0];
      assert image == more + Concat(pieces[1..]);
      assert |image| >= 18 && |more| >= 18 ==> image[..18] == more[..18];
      assert |received| >= 18 ==> more[..18] == received[..18];
      if Verdict(mode, size, received, pieces[0]) == OK {
        AcceptedWhole(mode, size, more, pieces[1..]);
      }
    }
  }

  /** How an image is cut into chunks makes no difference to whether it is accepted. */
  lemma AcceptanceIgnoresChunks(mode: ImportMode, size: nat, a: seq<seq<byte>>, b: seq<seq<byte>>)
    requires size <= U64_MAX && (mode == Checked ==> ValidateSize(size) == OK) && Concat(a) == Concat(b)
    ensures Accepted(mode, size, [], a) <==> Accepted(mode, size, [], b)
    ensures Accepted(mode, size, [], a) <==> Acceptable(mode, size, Concat(a))
  {
    assert [] + Concat(a) == Concat(a);
    assert [] + Concat(b) == Concat(b);
    AcceptedWhole(mode, size, [], a);
    AcceptedWhole(mode, size, [], b);
  }

  // Which error is reported.

  /** What a whole import reports: the first failing verdict, or what the end makes of it. */
  function Outcome(mode: ImportMode, size: nat, received: seq<byte>, pieces: seq<seq<byte>>): Result<()>
    decreases |pieces|
  {
    if pieces == [] then if |received| == size then OK else Failure(SizeMismatch(size, |received|))
    else if Verdict(mode, size, received, pieces[0]).Failure? then Verdict(mode, size, received, pieces[0])
    else Outcome(mode, size, received + pieces[0], pieces[1..])
  }

  lemma {:induction false} OutcomeAccepted(mode: ImportMode, size: nat, received: seq<byte>, pieces: seq<seq<byte>>)
    ensures Outcome(mode, size, received, pieces) == OK <==> Accepted(mode, size, received, pieces)
    decreases |pieces|
  {
    hide Verdict;
    if pieces != [] {
      OutcomeAccepted(mode, size, received + pieces[0], pieces[1..]);
      VerdictOrOK(mode, size, received, pieces[0]);
    }
  }

  lemma VerdictOrOK(mode: ImportMode, size: nat, received: seq<byte>, bytes: seq<byte>)
    ensures var v := Verdict(mode, size, received, bytes); v == OK || v.Failure?
  {
  }

  /** A way to cut an image into chunks of the sizes that a slice can have. */
  predicate Cutting(pieces: seq<seq<byte>>, image: seq<byte>) {
    Concat(pieces) == image && forall i :: 0 <= i < |pieces| ==> |pieces[i]| <= USIZE_MAX
  }

  predicate HeaderFails(mode: ImportMode, size: nat, image: seq<byte>) {
    mode == Checked && |image| >= 18 && CheckImportHeader(image[..18], size) != OK
  }

  /** No cutting can get past the size before the header is complete, or past it by any
      other number of bytes. */
  predicate ErrorIsFixed(mode: ImportMode, size: nat, image: seq<byte>) {
    || |image| <= size
    || (HeaderFails(mode, size, image) && size >= 17 + USIZE_MAX)
    || (!HeaderFails(mode, size, image) && (|image| == size + 1 || size == U64_MAX))
  }

  /** What is reported then. */
  function FixedOutcome(mode: ImportMode, size: nat, image: seq<byte>): Result<()> {
    if HeaderFails(mode, size, image) then CheckImportHeader(image[..18], size)
    else if |image| == size then OK
    else if |image| < size then Failure(SizeMismatch(size, |image|))
    else if size == U64_MAX then Failure(OffsetOverflow)
    else Failure(SizeMismatch(size, size + 1))
  }

  lemma {:induction false} OutcomeIsFixed(mode: ImportMode, size: nat, received: seq<byte>, pieces: seq<seq<byte>>)
    requires Started(mode, size, received) && (forall i :: 0 <= i < |pieces| ==> |pieces[i]| <= USIZE_MAX)
    requires ErrorIsFixed(mode, size, received + Concat(pieces))
    ensures Outcome(mode, size, received, pieces) == FixedOutcome(mode, size, received + Concat(pieces))
    decreases |pieces|
  {
    hide CheckImportHeader, ValidateSize;
    var image := received + Concat(pieces);
    if pieces == [] {
      assert image == received;
    } else {
      var more := received + pieces[0];
      assert image == more + Concat(pieces[1..]);
      assert |more| >= 18 ==> image[..18] == more[..18];
      assert |received| >= 18 ==> more[..18] == received[..18];
      if Verdict(mode, size, received, pieces[0]) == OK {
        OutcomeIsFixed(mode, size, more, pieces[1..]);
      }
    }
  }

  // Two cuttings with different outcomes.

  /** One byte at a time. */
  function Bytewise(s: seq<byte>): (pieces: seq<seq<byte>>)
    ensures Cutting(pieces, s)
  {
    if s == [] then [] else
      var pieces := [s[..1]] + Bytewise(s[1..]);
      assert pieces[0] == s[..1] && pieces[1..] == Bytewise(s[1..]) && s[..1] + s[1..] == s;
      pieces
  }

  /** Chunks within the size, with a good header if they complete it, are all taken. */
  lemma {:induction false} TakesAll(mode: ImportMode, size: nat, received: seq<byte>, a: seq<seq<byte>>,
                                    b: seq<seq<byte>>)
    requires Started(mode, size, received) && Started(mode, size, received + Concat(a))
    ensures Outcome(mode, size, received, a + b) == Outcome(mode, size, received + Concat(a), b)
    decreases |a|
  {
    hide CheckImportHeader, ValidateSize;
    var all := received + Concat(a);
    if a == [] {
      assert a + b == b && all == received;
    } else {
      var more := received + a[0];
      assert all == more + Concat(a[1..]);
      assert |more| >= 18 ==> all[..18] == more[..18];
      assert |received| >= 18 ==> more[..18] == received[..18];
      assert (a + b)[0] == a[0] && (a + b)[1..] == a[1..] + b;
      TakesAll(mode, size, more, a[1..], b);
    }
  }

  /** The image up to `i`, then a chunk up to `j`, then the rest. */
  function CutAt(image: seq<byte>, i: nat, j: nat): (pieces: seq<seq<byte>>)
    requires i < j <= |image| && j - i <= USIZE_MAX
    ensures Cutting(pieces, image)
  {
    var pieces := Bytewise(image[..i]) + ([image[i..j]] + Bytewise(image[j..]));
    JoinAppend(Bytewise(image[..i]), [image[i..j]] + Bytewise(image[j..]));
    JoinAppend([image[i..j]], Bytewise(image[j..]));
    assert Concat([image[i..j]]) == image[i..j];
    assert image == image[..i] + (image[i..j] + image[j..]);
    pieces
  }

  /** The chunk from `i` to `j` is the first to fail. */
  lemma FailsAt(mode: ImportMode, size: nat, image: seq<byte>, i: nat, j: nat)
    requires i < j <= |image| && j - i <= USIZE_MAX && Started(mode, size, image[..i])
    requires Verdict(mode, size, image[..i], image[i..j]).Failure?
    ensures Outcome(mode, size, [], CutAt(image, i, j)) == Verdict(mode, size, image[..i], image[i..j])
  {
    hide CheckImportHeader, ValidateSize, Verdict;
    var before := Bytewise(image[..i]);
    assert [] + Concat(before) == image[..i];
    TakesAll(mode, size, [], before, [image[i..j]] + Bytewise(image[j..]));
  }

  /** A bad header is found first, or passed over by a long chunk. */
  lemma HeaderOrSize(mode: ImportMode, size: nat, image: seq<byte>)
    requires size <= U64_MAX && (mode == Checked ==> ValidateSize(size) == OK) && !ErrorIsFixed(mode, size, image)
    requires HeaderFails(mode, size, image)
    ensures var j := if |image| <= 17 + USIZE_MAX then |image| else 17 + USIZE_MAX;
            && 18 <= j <= |image| && j - 17 <= USIZE_MAX && Started(mode, size, image[..17])
            && Verdict(mode, size, image[..17], image[17..18]) == CheckImportHeader(image[..18], size)
            && CheckImportHeader(image[..18], size).Failure?
            && Verdict(mode, size, image[..17], image[17..j]) == TooLong(size, j)
  {
    hide CheckImportHeader;
    assert (image[..17] + image[17..18])[..18] == image[..18];
    assert |image[..17]| == 17 && |image[17..18]| == 1;
  }

  function TooLong(size: nat, end: nat): Result<()> {
    Failure(if end > U64_MAX then OffsetOverflow else SizeMismatch(size, end))
  }

  /** A size can be exceeded by one or by two. */
  lemma OneOrTwo(mode: ImportMode, size: nat, image: seq<byte>)
    requires size <= U64_MAX && (mode == Checked ==> ValidateSize(size) == OK) && !ErrorIsFixed(mode, size, image)
    requires !HeaderFails(mode, size, image)
    ensures size + 2 <= |image| && size < U64_MAX && Started(mode, size, image[..size])
    ensures Verdict(mode, size, image[..size], image[size..size + 1]) == TooLong(size, size + 1)
    ensures Verdict(mode, size, image[..size], image[size..size + 2]) == TooLong(size, size + 2)
  {
    hide CheckImportHeader;
    assert size >= 18 ==> image[..size][..18] == image[..18];
  }

  /** The header check never reports a size as such. */
  lemma HeaderError(header: seq<byte>, size: nat, end: nat)
    ensures CheckImportHeader(header, size) != TooLong(size, end)
  {
  }

  /** Otherwise there are two cuttings with different outcomes. */
  lemma TwoOutcomes(mode: ImportMode, size: nat, image: seq<byte>) returns (a: seq<seq<byte>>, b: seq<seq<byte>>)
    requires size <= U64_MAX && (mode == Checked ==> ValidateSize(size) == OK) && !ErrorIsFixed(mode, size, image)
    ensures Cutting(a, image) && Cutting(b, image)
    ensures Outcome(mode, size, [], a) != Outcome(mode, size, [], b)
  {
    hide CheckImportHeader, ValidateSize, Verdict, Outcome, Started, ErrorIsFixed, Cutting, HeaderFails;
    if HeaderFails(mode, size, image) {
      HeaderOrSize(mode, size, image);
      var j := if |image| <= 17 + USIZE_MAX then |image| else 17 + USIZE_MAX;
      HeaderError(image[..18], size, j);
      FailsAt(mode, size, image, 17, 18);
      FailsAt(mode, size, image, 17, j);
      a, b := CutAt(image, 17, 18), CutAt(image, 17, j);
    } else {
      OneOrTwo(mode, size, image);
      FailsAt(mode, size, image, size, size + 1);
      FailsAt(mode, size, image, size, size + 2);
      a, b := CutAt(image, size, size + 1), CutAt(image, size, size + 2);
    }
  }

  /** Which error an import reports is independent of the cutting exactly then. */
  lemma ErrorIgnoresChunksExactly(mode: ImportMode, size: nat, image: seq<byte>)
    requires size <= U64_MAX && (mode == Checked ==> ValidateSize(size) == OK)
    ensures (forall a, b :: Cutting(a, image) && Cutting(b, image) ==>
                              Outcome(mode, size, [], a) == Outcome(mode, size, [], b))
       <==> ErrorIsFixed(mode, size, image)
  {
    hide ErrorIsFixed, FixedOutcome, Outcome, CheckImportHeader, ValidateSize;
    if ErrorIsFixed(mode, size, image) {
      forall a | Cutting(a, image)
        ensures Outcome(mode, size, [], a) == FixedOutcome(mode, size, image)
      {
        assert [] + Concat(a) == image;
        OutcomeIsFixed(mode, size, [], a);
      }
    } else {
      var a, b := TwoOutcomes(mode, size, image);
    }
  }

  /** 513 zeros for an import of 512 bytes: in one piece they are too many, in two pieces
      the first has a bad header. */
  lemma ErrorDependsOnChunks()
    ensures var a, b := [Zeros(513)], [Zeros(18), Zeros(495)];
            && Cutting(a, Zeros(513)) && Cutting(b, Zeros(513))
            && Outcome(Checked, 512, [], a) == Failure(SizeMismatch(512, 513))
            && Outcome(Checked, 512, [], b) == Failure(InvalidHeader)
  {
    var h := ([] + Zeros(18))[..18];
    assert h[..16][0] == 0 && MAGIC[0] == 0x53;
    assert Concat([Zeros(513)]) == Zeros(513);
    assert [Zeros(18), Zeros(495)][1..] == [Zeros(495)] && Concat([Zeros(495)]) == Zeros(495);
    assert Zeros(18) + Zeros(495) == Zeros(513);
  }

  /** What ends up stored: a checked import resets the two version bytes of the header to
      rollback-journal mode. */
  function Stored(mode: ImportMode, image: seq<byte>): seq<byte> {
    if mode == Checked && |image| >= 20 then image[18 := 1][19 := 1] else image
  }
}
