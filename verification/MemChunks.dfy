/** The chunked in-memory file. It is a fast, sparse representation of a flat string of
    bytes: every operation does to `Contents()` what it would do to such a string. */
module MemChunks {
  import opened Common
  import opened Bits
  import opened Bytes

  const USIZE_MAX: nat := 0xFFFF_FFFF
  const U64_MAX: nat := 0xFFFF_FFFF_FFFF_FFFF

  datatype FileError = Full | NoMemory | CannotExtend

  datatype FileResult = Ok | Err(error: FileError)

  // Chunks as one string.

  predicate Uniform(chunks: seq<seq<byte>>, c: nat) {
    forall k :: 0 <= k < |chunks| ==> |chunks[k]| == c
  }

  function Join(chunks: seq<seq<byte>>): seq<byte> {
    if chunks == [] then [] else chunks[0] + Join(chunks[1..])
  }

  lemma {:induction false} JoinLength(chunks: seq<seq<byte>>, c: nat)
    requires Uniform(chunks, c)
    ensures |Join(chunks)| == |chunks| * c
  {
    if chunks != [] {
      JoinLength(chunks[1..], c);
      Distribute(1, |chunks| - 1, c);
    }
  }

  lemma {:induction false} JoinAppend(a: seq<seq<byte>>, b: seq<seq<byte>>)
    ensures Join(a + b) == Join(a) + Join(b)
  {
    if a == [] {
      assert a + b == b;
    } else {
      assert (a + b)[1..] == a[1..] + b;
      JoinAppend(a[1..], b);
    }
  }

  /** Chunk k of the string, and what is around it. */
  lemma JoinAround(chunks: seq<seq<byte>>, c: nat, k: nat)
    requires Uniform(chunks, c) && k < |chunks|
    ensures |Join(chunks[..k])| == k * c && |chunks[k]| == c && |Join(chunks)| == |chunks| * c >= k * c + c
    ensures Join(chunks) == Join(chunks[..k]) + chunks[k] + Join(chunks[k + 1..])
    ensures Join(chunks)[k * c..k * c + c] == chunks[k]
  {
    hide Join, Uniform;
    SameSize(chunks, c, k);
    JoinLength(chunks[..k], c);
    JoinLength(chunks, c);
    Distribute(k, 1, c);
    Distribute(|chunks| - k - 1, k + 1, c);
    assert chunks == chunks[..k] + ([chunks[k]] + chunks[k + 1..]);
    JoinAppend(chunks[..k], [chunks[k]] + chunks[k + 1..]);
    JoinFirst(chunks[k], chunks[k + 1..]);
    Middle(Join(chunks[..k]), chunks[k], Join(chunks[k + 1..]));
  }

  lemma SameSize(chunks: seq<seq<byte>>, c: nat, k: nat)
    requires Uniform(chunks, c) && k < |chunks|
    ensures |chunks[k]| == c && Uniform(chunks[..k], c) && Uniform(chunks[k + 1..], c)
  {
  }

  lemma JoinFirst(first: seq<byte>, rest: seq<seq<byte>>)
    ensures Join([first] + rest) == first + Join(rest)
  {
    assert ([first] + rest)[1..] == rest;
  }

  lemma Middle(a: seq<byte>, b: seq<byte>, d: seq<byte>)
    ensures a + (b + d) == a + b + d && (a + b + d)[|a|..|a| + |b|] == b
  {
  }

  /** The string with part put over what was at that position. */
  function Spliced(s: seq<byte>, at: nat, part: seq<byte>): (r: seq<byte>)
    requires at + |part| <= |s|
    ensures |r| == |s|
  {
    s[..at] + part + s[at + |part|..]
  }

  /** Writing into a chunk is writing into the string. */
  lemma JoinSpliced(chunks: seq<seq<byte>>, c: nat, k: nat, r: nat, part: seq<byte>)
    requires Uniform(chunks, c) && k < |chunks| && r + |part| <= c
    ensures |chunks[k]| == c && k * c + c <= |Join(chunks)|
    ensures Uniform(chunks[k := Spliced(chunks[k], r, part)], c)
    ensures Join(chunks[k := Spliced(chunks[k], r, part)]) == Spliced(Join(chunks), k * c + r, part)
  {
    var more := chunks[k := Spliced(chunks[k], r, part)];
    JoinAround(chunks, c, k);
    JoinAround(more, c, k);
    assert more[..k] == chunks[..k] && more[k + 1..] == chunks[k + 1..];
  }

  lemma SplicedTwice(s: seq<byte>, at: nat, data: seq<byte>, done: nat, n: nat)
    requires done + n <= |data| && at + |data| <= |s|
    ensures Spliced(Spliced(s, at, data[..done]), at + done, data[done..done + n]) == Spliced(s, at, data[..done + n])
  {
  }

  lemma PrefixSlice(s: seq<byte>, size: nat, a: nat, b: nat)
    requires a <= b <= size <= |s|
    ensures s[..size][a..b] == s[a..b]
  {
  }

  lemma SplicedNothing(s: seq<byte>, at: nat, data: seq<byte>)
    requires at <= |s|
    ensures Spliced(s, at, data[..0]) == s
  {
  }

  lemma SplicedWhole(s: seq<byte>, data: seq<byte>)
    requires |s| == |data|
    ensures Spliced(s, 0, data) == data
  {
  }

  // How many chunks a size needs.

  function ChunksFor(size: nat, c: nat): nat
    requires c > 0
  {
    if size == 0 then 0 else (size - 1) / c + 1
  }

  /** They hold the size, and one fewer would not. */
  lemma Enough(size: nat, c: nat)
    requires c > 0
    ensures size <= ChunksFor(size, c) * c < size + c
  {
    if size > 0 {
      Distribute((size - 1) / c, 1, c);
    }
  }

  lemma EnoughMonotone(a: nat, b: nat, c: nat)
    requires a <= b && c > 0
    ensures ChunksFor(a, c) <= ChunksFor(b, c)
  {
    Enough(a, c);
    Enough(b, c);
    var m, n := ChunksFor(a, c), ChunksFor(b, c);
    if n < m {
      Distribute(m - n, n, c);
      AtLeastOnce(m - n, c);
    }
  }

  /** The chunks and the end of a valid file: there are just enough chunks, and what they
      hold past the end is zero. */
  predicate Tight(chunks: seq<seq<byte>>, c: nat, size: nat) {
    && c > 0 && Uniform(chunks, c) && |chunks| == ChunksFor(size, c) && size <= |Join(chunks)|
    && ZeroFrom(Join(chunks), size)
  }

  predicate ZeroFrom(s: seq<byte>, size: nat) {
    forall i :: size <= i < |s| ==> s[i] == 0
  }

  /** Where a position falls. */
  lemma Position(chunks: seq<seq<byte>>, c: nat, p: nat)
    requires c > 0 && Uniform(chunks, c) && p < |Join(chunks)|
    ensures p / c < |chunks| && p % c < c && p == (p / c) * c + p % c
  {
    hide Join, Uniform;
    JoinLength(chunks, c);
    DivBelow(p, c, |chunks|);
  }

  /** A copy cut off by the end of its chunk goes on at the start of the next one. */
  lemma NextChunk(chunks: seq<seq<byte>>, c: nat, k: nat, r: nat, left: nat)
    requires c > 0 && Uniform(chunks, c) && k < |chunks| && r < c && k * c + r + left <= |Join(chunks)| && c - r < left
    ensures k + 1 < |chunks| && k * c + r + (c - r) == (k + 1) * c
  {
    JoinLength(chunks, c);
    Distribute(k, 1, c);
  }

  /** Position p is byte r of chunk k. */
  predicate Falls(p: nat, c: nat, k: nat, r: nat) {
    p == k * c + r
  }

  lemma FallsAt(p: nat, c: nat)
    requires c > 0
    ensures Falls(p, c, p / c, p % c)
  {
  }

  /** A read that has not ended goes on at the start of the next chunk. */
  lemma ReadStep(chunks: seq<seq<byte>>, c: nat, k: nat, r: nat, p: nat, left: nat)
    requires c > 0 && Uniform(chunks, c) && k < |chunks| && r < c && Falls(p, c, k, r) && p + left <= |Join(chunks)|
    ensures c - r < left ==> k + 1 < |chunks| && Falls(p + (c - r), c, k + 1, 0)
  {
    hide Join, Uniform;
    if c - r < left {
      NextChunk(chunks, c, k, r, left);
    }
  }

  /** One round of a write: the next piece of the data goes into its chunk. */
  lemma CopyStep(chunks: seq<seq<byte>>, c: nat, k: nat, r: nat, j: seq<byte>, start: nat, data: seq<byte>,
                 offset: nat, n: nat)
    requires c > 0 && Uniform(chunks, c) && k < |chunks| && r < c && start + |data| <= |j| && offset < |data|
    requires Join(chunks) == Spliced(j, start, data[..offset]) && Falls(start + offset, c, k, r)
    requires n == (if c - r <= |data| - offset then c - r else |data| - offset)
    ensures |chunks[k]| == c && offset + n <= |data|
    ensures var more := chunks[k := Spliced(chunks[k], r, data[offset..offset + n])];
            Uniform(more, c) && Join(more) == Spliced(j, start, data[..offset + n])
    ensures offset + n < |data| ==> k + 1 < |chunks| && Falls(start + offset + n, c, k + 1, 0)
  {
    hide Join, Uniform, Spliced;
    JoinSpliced(chunks, c, k, r, data[offset..offset + n]);
    SplicedTwice(j, start, data, offset, n);
    if n < |data| - offset {
      NextChunk(chunks, c, k, r, |data| - offset);
    }
  }

  /** Splicing into the zero-extended chunks is patching the flat file. */
  lemma SplicedIsPatched(j: seq<byte>, size: nat, zeros: nat, offset: nat, data: seq<byte>)
    requires size <= |j| && ZeroFrom(j, size) && data != [] && offset + |data| <= |j| + zeros
    ensures var end := if size <= offset + |data| then offset + |data| else size;
            var s := Spliced(j + Zeros(zeros), offset, data);
            end <= |s| && s[..end] == Patched(j[..size], offset, data) && ZeroFrom(s, end)
  {
    var end := if size <= offset + |data| then offset + |data| else size;
    var s := Spliced(j + Zeros(zeros), offset, data);
    forall i | 0 <= i < |s|
      ensures s[i] == if offset <= i < offset + |data| then data[i - offset] else if i < size then j[i] else 0
    {
      SplicedAt(j + Zeros(zeros), offset, data, i);
    }
    assert |Patched(j[..size], offset, data)| == end;
  }

  lemma SplicedAt(s: seq<byte>, at: nat, part: seq<byte>, i: nat)
    requires at + |part| <= |s| && i < |s|
    ensures Spliced(s, at, part)[i] == if at <= i < at + |part| then part[i - at] else s[i]
  {
  }

  class MemChunksFile {
    var chunks: seq<seq<byte>>
    var chunkSize: Option<nat>
    var fileSize: nat

    predicate Valid()
      reads this
    {
      && fileSize <= USIZE_MAX
      && match chunkSize
         case None => chunks == [] && fileSize == 0
         case Some(c) => Tight(chunks, c, fileSize)
    }

    /** The flat string of bytes that the file stands for. */
    function Contents(): (s: seq<byte>)
      requires Valid()
      reads this
      ensures |s| == fileSize
    {
      Join(chunks)[..fileSize]
    }

    /** An empty file with chunks of this size. */
    constructor New(size: nat)
      requires 0 < size <= USIZE_MAX
      ensures Valid() && Contents() == [] && chunkSize == Some(size)
    {
      chunks, chunkSize, fileSize := [], Some(size), 0;
    }

    /** An empty file that takes its chunk size from the first successful write. */
    constructor WaitingForWrite()
      ensures Valid() && Contents() == [] && chunkSize == None
    {
      chunks, chunkSize, fileSize := [], None, 0;
    }

    /** Fills the start of the buffer with what the file has there, and no more. */
    method Read(buf: array<byte>, offset: nat) returns (count: nat)
      requires Valid() && offset <= U64_MAX && buf.Length <= USIZE_MAX
      modifies buf
      ensures count <= buf.Length && buf[..count] == Slice(Contents(), offset, buf.Length)
      ensures buf[count..] == old(buf[count..])
    {
      hide Join, Uniform, ZeroFrom, Utf8;
      if buf.Length == 0 || offset >= fileSize || chunkSize == None {
        return 0;
      }
      var c := chunkSize.value;
      Position(chunks, c, offset);
      if c == buf.Length && offset % c == 0 && fileSize - offset >= buf.Length {
        JoinAround(chunks, c, offset / c);
        var chunk := chunks[offset / c];
        forall i | 0 <= i < c {
          buf[i] := chunk[i];
        }
        assert buf[..c] == chunk;
        return c;
      }
      count := ReadPieces(buf, offset, c);
    }

    /** The general case of a read, chunk by chunk. */
    method ReadPieces(buf: array<byte>, start: nat, c: nat) returns (count: nat)
      requires Valid() && chunkSize == Some(c) && start < fileSize && buf.Length > 0
      modifies buf
      ensures count <= buf.Length && buf[..count] == Slice(Contents(), start, buf.Length)
      ensures buf[count..] == old(buf[count..])
    {
      hide Join, Uniform, ZeroFrom, Utf8, ChunksFor, Falls;
      ghost var j := Join(chunks);
      var size: nat := if buf.Length <= fileSize - start then buf.Length else fileSize - start;
      ghost var total: nat := size;
      Position(chunks, c, start);
      FallsAt(start, c);
      var idx: nat, rest: nat, offset: nat := start / c, start % c, 0;
      ghost var tail := buf[..];
      while size > 0
        invariant offset + size == total <= buf.Length && start + total <= |j| && rest < c
        invariant size > 0 ==> idx < |chunks| && Falls(start + offset, c, idx, rest)
        invariant buf[..offset] == j[start..start + offset] && buf[offset..] == tail[offset..]
        decreases size
      {
        var n := if c - rest <= size then c - rest else size;
        ReadPiece(buf, start, c, idx, rest, offset, n, tail);
        ReadStep(chunks, c, idx, rest, start + offset, size);
        offset, size, rest := offset + n, size - n, 0;
        idx := idx + 1;
      }
      PrefixSlice(j, fileSize, start, start + total);
      return offset;
    }

    /** Copies out of one chunk. */
    method ReadPiece(buf: array<byte>, start: nat, c: nat, idx: nat, rest: nat, offset: nat, n: nat,
                     ghost tail: seq<byte>)
      requires Uniform(chunks, c) && idx < |chunks| && rest + n <= c && Falls(start + offset, c, idx, rest)
      requires offset + n <= buf.Length && start + offset + n <= |Join(chunks)| && |tail| == buf.Length
      requires buf[..offset] == Join(chunks)[start..start + offset] && buf[offset..] == tail[offset..]
      modifies buf
      ensures buf[..offset + n] == Join(chunks)[start..start + offset + n] && buf[offset + n..] == tail[offset + n..]
    {
      hide Join, Uniform;
      JoinAround(chunks, c, idx);
      var chunk := chunks[idx];
      ghost var before := buf[..];
      forall i | 0 <= i < n {
        buf[offset + i] := chunk[rest + i];
      }
      OnePiece(before, buf[..], tail, Join(chunks), start, offset, chunk, idx * c, rest, n);
    }

    /** Appends zeroed chunks until there are enough, or leaves the list as it was. */
    method Allocate(c: nat, required: nat) returns (ok: bool)
      requires Uniform(chunks, c)
      modifies this`chunks
      ensures !ok ==> chunks == old(chunks)
      ensures ok ==> Uniform(chunks, c) && |chunks| == (if |old(chunks)| <= required then required else |old(chunks)|)
      ensures ok ==> Join(chunks) == Join(old(chunks)) + Zeros((|chunks| - |old(chunks)|) * c)
    {
      hide Join, Utf8;
      var original := |chunks|;
      if * {
        return false;
      }
      var i := original;
      while i < required
        invariant original <= |chunks| && chunks[..original] == old(chunks) && Uniform(chunks, c)
        invariant |chunks| == i && (i <= required || i == original)
        invariant Join(chunks) == Join(old(chunks)) + Zeros((i - original) * c)
      {
        if * {
          chunks := chunks[..original];
          return false;
        }
        MoreZeros(chunks, Join(old(chunks)), c, i - original);
        chunks := chunks + [Zeros(c)];
        i := i + 1;
      }
      return true;
    }

    /** Puts the data over what the file has there; a gap before it reads as zero. A
        failed write changes nothing, not even the chunk list. */
    method Write(buf: seq<byte>, offset: nat) returns (r: FileResult)
      requires Valid() && offset <= U64_MAX && |buf| <= USIZE_MAX
      modifies this
      ensures Valid()
      ensures r == Ok ==> Contents() == Patched(old(Contents()), offset, buf)
      ensures r == Ok && buf != [] ==> chunkSize == Some(if old(chunkSize) == None then |buf| else old(chunkSize).value)
      ensures r == Err(Full) <==> buf != [] && offset + |buf| > USIZE_MAX
      ensures r.Err? ==> r.error != CannotExtend
      ensures r.Err? ==> chunks == old(chunks) && chunkSize == old(chunkSize) && fileSize == old(fileSize)
      ensures buf == [] ==> r == Ok && chunks == old(chunks) && chunkSize == old(chunkSize) && fileSize == old(fileSize)
    {
      hide Join, Uniform, ZeroFrom, Utf8, Patched;
      if buf == [] {
        NothingPatched(Contents(), offset);
        return Ok;
      }
      if offset > USIZE_MAX || offset + |buf| > USIZE_MAX {
        return Err(Full);
      }
      var end := offset + |buf|;
      var c := match chunkSize case None => |buf| case Some(c) => c;
      Waiting(chunks, c, chunkSize, fileSize);
      ghost var was := chunks;
      var ok := Allocate(c, (end - 1) / c + 1);
      if !ok {
        return Err(NoMemory);
      }
      RoomFor(was, chunks, c, fileSize, end);
      WriteInto(buf, offset, c, was);
      return Ok;
    }

    /** A write whose chunks are there: `was` is the list before they were added. */
    method WriteInto(buf: seq<byte>, offset: nat, c: nat, ghost was: seq<seq<byte>>)
      requires buf != [] && Tight(was, c, fileSize) && Uniform(chunks, c) && offset + |buf| <= |Join(chunks)|
      requires |was| <= |chunks| && Join(chunks) == Join(was) + Zeros((|chunks| - |was|) * c)
      requires fileSize <= USIZE_MAX && offset + |buf| <= USIZE_MAX
      requires |chunks| == ChunksFor(if fileSize <= offset + |buf| then offset + |buf| else fileSize, c)
      modifies this
      ensures Valid() && chunkSize == Some(c) && Contents() == Patched(Join(was)[..old(fileSize)], offset, buf)
    {
      hide Join, Uniform, ZeroFrom, Utf8, Patched, ChunksFor, Spliced;
      var end := offset + |buf|;
      chunkSize := Some(c);
      var newLength := if fileSize <= end then end else fileSize;
      SplicedIsPatched(Join(was), fileSize, (|chunks| - |was|) * c, offset, buf);
      CopyIn(buf, offset, c);
      fileSize := newLength;
    }

    /** The copying part of a write, into chunks that are already there. */
    method CopyIn(buf: seq<byte>, start: nat, c: nat)
      requires c > 0 && Uniform(chunks, c) && buf != [] && start + |buf| <= |Join(chunks)|
      modifies this`chunks
      ensures Uniform(chunks, c) && |chunks| == |old(chunks)|
      ensures Join(chunks) == Spliced(old(Join(chunks)), start, buf)
    {
      hide Join, Uniform, Utf8, Spliced;
      ghost var j := Join(chunks);
      Position(chunks, c, start);
      if c == |buf| && start % c == 0 {
        JoinSpliced(chunks, c, start / c, 0, buf);
        SplicedWhole(chunks[start / c], buf);
        chunks := chunks[start / c := buf];
        return;
      }
      FallsAt(start, c);
      CopyPieces(buf, start, c, start / c, start % c);
    }

    /** The general case of a write, chunk by chunk. */
    method CopyPieces(buf: seq<byte>, start: nat, c: nat, idx0: nat, rest0: nat)
      requires c > 0 && Uniform(chunks, c) && start + |buf| <= |Join(chunks)|
      requires buf != [] && idx0 < |chunks| && rest0 < c && Falls(start, c, idx0, rest0)
      modifies this`chunks
      ensures Uniform(chunks, c) && |chunks| == |old(chunks)|
      ensures Join(chunks) == Spliced(old(Join(chunks)), start, buf)
    {
      hide Join, Uniform, Utf8, Spliced, Falls;
      ghost var j := Join(chunks);
      var idx: nat, rest: nat, offset: nat, size: nat := idx0, rest0, 0, |buf|;
      SplicedNothing(j, start, buf);
      while size > 0
        invariant offset + size == |buf| && rest < c && Uniform(chunks, c) && |chunks| == |old(chunks)|
        invariant size > 0 ==> idx < |chunks| && Falls(start + offset, c, idx, rest)
        invariant Join(chunks) == Spliced(j, start, buf[..offset])
        decreases size
      {
        var n := if c - rest <= size then c - rest else size;
        CopyStep(chunks, c, idx, rest, j, start, buf, offset, n);
        chunks := chunks[idx := Spliced(chunks[idx], rest, buf[offset..offset + n])];
        offset, size, rest := offset + n, size - n, 0;
        idx := idx + 1;
      }
      assert buf[..|buf|] == buf;
    }

    /** Shortens the file. What was cut off stays gone: bytes that a later write brings
        back inside the file read as zero. */
    method Truncate(size: nat) returns (r: FileResult)
      requires Valid() && size <= U64_MAX
      modifies this
      ensures Valid() && chunkSize == old(chunkSize)
      ensures r == if size > old(fileSize) then Err(CannotExtend) else Ok
      ensures Contents() == if r == Ok then old(Contents())[..size] else old(Contents())
      ensures r.Err? ==> chunks == old(chunks) && fileSize == old(fileSize)
    {
      hide Join, Uniform, ZeroFrom, Utf8;
      if size > fileSize {
        return Err(CannotExtend);
      }
      if chunkSize != None {
        var c := chunkSize.value;
        if size == 0 {
          EmptyTight(c);
          chunks := [];
        } else {
          var idx := (size - 1) / c + 1;
          var tail := size % c;
          CutChunks(chunks, c, fileSize, size);
          chunks := chunks[..idx];
          if size < fileSize && tail != 0 {
            chunks := chunks[idx - 1 := Spliced(chunks[idx - 1], tail, Zeros(c - tail))];
          }
        }
      }
      fileSize := size;
      return Ok;
    }
  }

  lemma MoreZeros(chunks: seq<seq<byte>>, j: seq<byte>, c: nat, n: nat)
    requires Uniform(chunks, c) && Join(chunks) == j + Zeros(n * c)
    ensures Uniform(chunks + [Zeros(c)], c) && Join(chunks + [Zeros(c)]) == j + Zeros((n + 1) * c)
  {
    JoinAppend(chunks, [Zeros(c)]);
    Distribute(n, 1, c);
    assert Join([Zeros(c)]) == Zeros(c);
    assert j + Zeros(n * c) + Zeros(c) == j + Zeros((n + 1) * c);
  }

  lemma NothingPatched(file: seq<byte>, offset: nat)
    ensures Patched(file, offset, []) == file
  {
  }

  /** A file still waiting for its chunk size is valid for any. */
  lemma Waiting(chunks: seq<seq<byte>>, c: nat, chunkSize: Option<nat>, size: nat)
    requires c > 0
    requires match chunkSize case None => chunks == [] && size == 0 case Some(d) => Tight(chunks, d, size) && d == c
    ensures Tight(chunks, c, size)
  {
  }

  lemma RoomFor(was: seq<seq<byte>>, chunks: seq<seq<byte>>, c: nat, size: nat, end: nat)
    requires Tight(was, c, size) && Uniform(chunks, c) && end > 0
    requires |chunks| == (if |was| <= ChunksFor(end, c) then ChunksFor(end, c) else |was|)
    ensures end <= |Join(chunks)| && |Join(chunks)| == |Join(was)| + (|chunks| - |was|) * c
    ensures |chunks| == ChunksFor(if size <= end then end else size, c)
  {
    JoinLength(was, c);
    JoinLength(chunks, c);
    MoreChunks(|was|, |chunks|, c, size, end);
  }

  /** Enough chunks for what there was and for what is to come. */
  lemma MoreChunks(was: nat, now: nat, c: nat, size: nat, end: nat)
    requires c > 0 && was == ChunksFor(size, c)
    requires now == if was <= ChunksFor(end, c) then ChunksFor(end, c) else was
    ensures end <= now * c == was * c + (now - was) * c
    ensures now == ChunksFor(if size <= end then end else size, c)
  {
    hide ChunksFor;
    Enough(end, c);
    Distribute(now - was, was, c);
    Distribute(now - ChunksFor(end, c), ChunksFor(end, c), c);
    NotNegative(now - ChunksFor(end, c), c);
    if size <= end {
      EnoughMonotone(size, end, c);
    } else {
      EnoughMonotone(end, size, c);
    }
  }

  lemma EmptyTight(c: nat)
    requires c > 0
    ensures Tight([], c, 0) && Join([]) == []
  {
  }

  /** Dropping whole chunks and zeroing the rest of the last one shortens the string. */
  lemma CutChunks(chunks: seq<seq<byte>>, c: nat, was: nat, size: nat)
    requires Tight(chunks, c, was) && 0 < size <= was
    ensures var idx, tail := (size - 1) / c + 1, size % c;
            && 0 < idx <= |chunks| && |chunks[idx - 1]| == c && tail < c
            && var less := if size < was && tail != 0
                           then chunks[..idx][idx - 1 := Spliced(chunks[idx - 1], tail, Zeros(c - tail))]
                           else chunks[..idx];
               Tight(less, c, size) && Join(less)[..size] == Join(chunks)[..size]
  {
    hide Join;
    var idx, tail := (size - 1) / c + 1, size % c;
    var j := Join(chunks);
    EnoughMonotone(size, was, c);
    Enough(size, c);
    JoinLength(chunks, c);
    JoinLength(chunks[..idx], c);
    JoinAppend(chunks[..idx], chunks[idx..]);
    assert chunks[..idx] + chunks[idx..] == chunks;
    var k := Join(chunks[..idx]);
    LastTail(size, c);
    if size < was && tail != 0 {
      JoinSpliced(chunks[..idx], c, idx - 1, tail, Zeros(c - tail));
      var less := chunks[..idx][idx - 1 := Spliced(chunks[idx - 1], tail, Zeros(c - tail))];
      ZeroedTail(k, size, c - tail);
    } else if size == was {
      assert ZeroFrom(k, size) by {
        assert forall i :: size <= i < |k| ==> k[i] == j[i];
      }
    }
  }

  lemma LastTail(size: nat, c: nat)
    requires c > 0 && size > 0
    ensures var idx, tail := (size - 1) / c + 1, size % c;
            if tail == 0 then idx * c == size else (idx - 1) * c + tail == size && idx * c == size + (c - tail)
  {
    var q, tail := size / c, size % c;
    if tail == 0 {
      Distribute(q - 1, 1, c);
      assert q >= 1;
      DivUnique(size - 1, c, q - 1, c - 1);
    } else {
      DivUnique(size - 1, c, q, tail - 1);
      Distribute(q, 1, c);
    }
  }

  lemma ZeroedTail(k: seq<byte>, size: nat, n: nat)
    requires size + n == |k|
    ensures ZeroFrom(Spliced(k, size, Zeros(n)), size) && Spliced(k, size, Zeros(n))[..size] == k[..size]
  {
  }

  lemma Piece(j: seq<byte>, chunk: seq<byte>, at: nat, r: nat, n: nat)
    requires at + |chunk| <= |j| && j[at..at + |chunk|] == chunk && r + n <= |chunk|
    ensures j[at + r..at + r + n] == chunk[r..r + n]
  {
    var here, there := j[at + r..at + r + n], chunk[r..r + n];
    forall i | 0 <= i < n
      ensures here[i] == there[i]
    {
      assert j[at..at + |chunk|][r + i] == j[at + (r + i)];
    }
  }

  /** One round of a read: a piece of a chunk goes to the buffer. */
  lemma OnePiece(before: seq<byte>, after: seq<byte>, tail: seq<byte>, j: seq<byte>, start: nat, offset: nat,
                 chunk: seq<byte>, at: nat, r: nat, n: nat)
    requires |after| == |before| == |tail| && offset + n <= |before| && r + n <= |chunk|
    requires at + |chunk| <= |j| && j[at..at + |chunk|] == chunk && start + offset == at + r
    requires before[..offset] == j[start..start + offset] && before[offset..] == tail[offset..]
    requires forall i :: 0 <= i < |after| ==>
               after[i] == if offset <= i < offset + n then chunk[r + (i - offset)] else before[i]
    ensures after[..offset + n] == j[start..start + offset + n] && after[offset + n..] == tail[offset + n..]
  {
    Piece(j, chunk, at, r, n);
    assert after[..offset + n] == before[..offset] + chunk[r..r + n];
    assert j[start..start + offset] + j[start + offset..start + offset + n] == j[start..start + offset + n];
    forall i | offset + n <= i < |tail|
      ensures after[i] == tail[i]
    {
      assert before[offset..][i - offset] == tail[offset..][i - offset];
    }
  }

  // Whole runs.

  datatype FileCall = ReadCall(length: nat, offset: nat) | WriteCall(data: seq<byte>, offset: nat)
    | TruncateCall(size: nat)

  datatype Answer = Found(bytes: seq<byte>) | Changed(result: FileResult)

  predicate Callable(call: FileCall) {
    match call
    case ReadCall(length, offset) => length <= USIZE_MAX && offset <= U64_MAX
    case WriteCall(data, offset) => |data| <= USIZE_MAX && offset <= U64_MAX
    case TruncateCall(size) => size <= U64_MAX
  }

  /** The answers a flat file can give; only memory may run out on the way. */
  predicate FlatAnswer(file: seq<byte>, call: FileCall, answer: Answer) {
    match call
    case ReadCall(length, offset) => answer == Found(Slice(file, offset, length))
    case WriteCall(data, offset) =>
      if data != [] && offset + |data| > USIZE_MAX then answer == Changed(Err(Full))
      else answer == Changed(Ok) || (data != [] && answer == Changed(Err(NoMemory)))
    case TruncateCall(size) => answer == Changed(if size > |file| then Err(CannotExtend) else Ok)
  }

  /** The flat file after the call was answered like this. */
  function FlatNext(file: seq<byte>, call: FileCall, answer: Answer): seq<byte> {
    match call
    case ReadCall(_, _) => file
    case WriteCall(data, offset) => if answer == Changed(Ok) then Patched(file, offset, data) else file
    case TruncateCall(size) => if size <= |file| then file[..size] else file
  }

  /** The flat file after these calls were answered like this. */
  function FlatAfter(file: seq<byte>, calls: seq<FileCall>, answers: seq<Answer>): seq<byte>
    requires |calls| == |answers|
  {
    if calls == [] then file
    else
      var n := |calls| - 1;
      FlatNext(FlatAfter(file, calls[..n], answers[..n]), calls[n], answers[n])
  }

  /** A flat file can answer these calls like this. */
  predicate FlatRun(file: seq<byte>, calls: seq<FileCall>, answers: seq<Answer>)
    requires |calls| == |answers|
  {
    calls == [] ||
    var n := |calls| - 1;
    && FlatRun(file, calls[..n], answers[..n])
    && FlatAnswer(FlatAfter(file, calls[..n], answers[..n]), calls[n], answers[n])
  }

  lemma OneMoreCall(file: seq<byte>, calls: seq<FileCall>, answers: seq<Answer>, n: nat, answer: Answer)
    requires n < |calls| && |answers| == n && FlatRun(file, calls[..n], answers)
    requires FlatAnswer(FlatAfter(file, calls[..n], answers), calls[n], answer)
    ensures FlatRun(file, calls[..n + 1], answers + [answer])
    ensures FlatAfter(file, calls[..n + 1], answers + [answer])
         == FlatNext(FlatAfter(file, calls[..n], answers), calls[n], answer)
  {
    assert calls[..n + 1][..n] == calls[..n];
    assert (answers + [answer])[..n] == answers;
  }

  /** However the file cuts its chunks, any sequence of calls is answered as a flat file
      of its contents would answer it. */
  method Replay(file: MemChunksFile, calls: seq<FileCall>) returns (answers: seq<Answer>)
    requires file.Valid() && forall i :: 0 <= i < |calls| ==> Callable(calls[i])
    modifies file
    ensures file.Valid() && |answers| == |calls| && FlatRun(old(file.Contents()), calls, answers)
    ensures file.Contents() == FlatAfter(old(file.Contents()), calls, answers)
  {
    hide Tight, Utf8, Patched, Slice, FlatRun, FlatAfter, FlatNext, FlatAnswer;
    answers := [];
    ghost var flat := file.Contents();
    NoCalls(flat);
    for n := 0 to |calls|
      invariant file.Valid() && |answers| == n && file.Contents() == FlatAfter(flat, calls[..n], answers)
      invariant FlatRun(flat, calls[..n], answers)
    {
      var answer := Perform(file, calls[n]);
      OneMoreCall(flat, calls, answers, n, answer);
      answers := answers + [answer];
    }
    assert calls[..|calls|] == calls;
  }

  lemma NoCalls(file: seq<byte>)
    ensures FlatRun(file, [], []) && FlatAfter(file, [], []) == file
  {
  }

  method Perform(file: MemChunksFile, call: FileCall) returns (answer: Answer)
    requires file.Valid() && Callable(call)
    modifies file
    ensures file.Valid() && FlatAnswer(old(file.Contents()), call, answer)
    ensures file.Contents() == FlatNext(old(file.Contents()), call, answer)
  {
    hide Tight, Utf8, Patched, Slice;
    match call
    case ReadCall(length, offset) =>
      var buf := new byte[length];
      var count := file.Read(buf, offset);
      return Found(buf[..count]);
    case WriteCall(data, offset) =>
      NothingPatched(file.Contents(), offset);
      var r := file.Write(data, offset);
      return Changed(r);
    case TruncateCall(size) =>
      var r := file.Truncate(size);
      return Changed(r);
  }
}
