/** Sequential imports and exports of database images, and the round trip they make. */
module Transfer {
  import opened Bytes
  import opened SlotHeader
  import opened MemChunks
  import opened TransferRules
  import opened MemVfs

  const ISIZE_MAX: nat := 0x7FFF_FFFF

  class DbImport {
    const target: MemImportTarget
    const size: nat
    const mode: ImportMode
    var offset: nat
    var header: seq<byte>
    var failed: bool
    ghost var received: seq<byte>

    ghost predicate Valid()
      reads this, target.vfs, target.vfs.files.Values, target.file
    {
      && target.Valid() && |header| == 18
      && (!failed ==>
            && Started(mode, size, received) && offset == |received|
            && target.file.Contents() == received
            && (mode == Checked ==> forall i :: 0 <= i < 18 && i < |received| ==> header[i] == received[i]))
    }

    constructor (target: MemImportTarget, size: nat, mode: ImportMode)
      requires target.Valid() && target.file.Contents() == [] && size <= U64_MAX
      requires mode == Checked ==> ValidateSize(size) == OK
      ensures Valid() && this.target == target && this.size == size && this.mode == mode && !failed && received == []
    {
      this.target, this.size, this.mode := target, size, mode;
      offset, header, failed, received := 0, Zeros(18), false, [];
    }

    /** Takes the next chunk of the image. Apart from backend failures the outcome is the
        verdict on the bytes so far; after any failure the import takes nothing more. */
    method Write(bytes: seq<byte>) returns (r: Result<()>)
      requires Valid() && |bytes| <= USIZE_MAX
      modifies this, target.file
      ensures Valid()
      ensures r == OK || r.Failure?
      ensures old(failed) ==> r == Failure(ImportFailed) && failed
      ensures !old(failed) ==> failed == r.Failure?
      ensures !old(failed) && Verdict(mode, size, old(received), bytes).Failure? ==>
                r == Verdict(mode, size, old(received), bytes)
      ensures !old(failed) && Verdict(mode, size, old(received), bytes) == OK ==>
                r == OK || (r.Failure? && r.error.Backend?)
      ensures received == if r == OK then old(received) + bytes else old(received)
    {
      hide CheckImportHeader, Utf8, Patched, Tight;
      if failed {
        return Failure(ImportFailed);
      }
      r := Take(bytes);
      failed := r.Failure?;
    }

    method Take(bytes: seq<byte>) returns (r: Result<()>)
      requires Valid() && !failed && |bytes| <= USIZE_MAX
      modifies this`offset, this`header, this`received, target.file
      ensures r == OK || r.Failure?
      ensures r == OK ==> Valid() && received == old(received) + bytes
      ensures target.Valid() && |header| == 18 && (r.Failure? ==> received == old(received))
      ensures Verdict(mode, size, old(received), bytes).Failure? ==> r == Verdict(mode, size, old(received), bytes)
      ensures Verdict(mode, size, old(received), bytes) == OK ==> r == OK || (r.Failure? && r.error.Backend?)
    {
      hide CheckImportHeader, Utf8, Patched, Tight;
      var end := offset + |bytes|;
      if end > U64_MAX {
        return Failure(OffsetOverflow);
      }
      if end > size {
        return Failure(SizeMismatch(size, end));
      }
      ghost var more := received + bytes;
      if mode == Checked && offset < 18 {
        var count := if |bytes| <= 18 - offset then |bytes| else 18 - offset;
        header := header[..offset] + bytes[..count] + header[offset + count..];
        assert forall i :: 0 <= i < 18 && i < end ==> header[i] == more[i];
        if end >= 18 {
          assert header == more[..18];
          r := CheckImportHeader(header, size);
          if r.Failure? {
            return;
          }
        }
      } else if mode == Checked {
        assert more[..18] == received[..18];
      }
      if bytes != [] {
        r := WriteAt(target, offset, bytes);
        if r.Failure? {
          return;
        }
        Appended(received, bytes);
      } else {
        assert more == received;
      }
      offset := end;
      received := more;
      return OK;
    }

    /** Publishes the image if it is complete and nothing went wrong, and only then. */
    method Finish() returns (r: Result<()>)
      requires Valid()
      modifies target.file, target.vfs
      ensures target.vfs.Valid() && target.file.Valid() && (r == OK || r.Failure?)
      ensures r == OK ==>
                && !failed && Acceptable(mode, size, received) && target.filename !in old(target.vfs.files)
                && target.vfs.files == old(target.vfs.files)[target.filename := target.file]
                && target.file.Contents() == Stored(mode, received)
      ensures r.Failure? ==> target.vfs.files == old(target.vfs.files)
      ensures r == Failure(ImportFailed) <==> failed
      ensures !failed && |received| != size ==> r == Failure(SizeMismatch(size, |received|))
      ensures !failed && |received| == size && target.filename !in old(target.vfs.files) ==>
                r == OK || (r.Failure? && r.error.Backend?)
      ensures !failed && |received| == size && target.filename in old(target.vfs.files) ==>
                r == Failure(AlreadyExists) || (r.Failure? && r.error.Backend?)
    {
      hide CheckImportHeader, Utf8, Patched, Tight;
      if failed {
        return Failure(ImportFailed);
      }
      if offset != size {
        return Failure(SizeMismatch(size, offset));
      }
      if mode == Checked {
        r := WriteAt(target, 18, [1, 1]);
        if r.Failure? {
          return;
        }
        VersionsReset(received);
      }
      r := Commit(target);
    }
  }

  lemma Appended(received: seq<byte>, bytes: seq<byte>)
    ensures Patched(received, |received|, bytes) == received + bytes
  {
  }

  lemma VersionsReset(image: seq<byte>)
    requires |image| >= 20
    ensures Patched(image, 18, [1, 1]) == Stored(Checked, image)
  {
    var p := Patched(image, 18, [1, 1]);
    assert |p| == |image|;
  }

  class DbExport {
    const file: MemChunksFile
    const size: nat
    var offset: nat

    ghost predicate Valid()
      reads this, file
    {
      file.Valid() && offset <= size <= USIZE_MAX
    }

    constructor (file: MemChunksFile)
      requires file.Valid()
      ensures Valid() && this.file == file && size == |file.Contents()| && offset == 0
    {
      this.file := file;
      size := file.fileSize;
      offset := 0;
    }

    /** One backend read, into the part of the buffer from `done` up to `length`. */
    method ReadMore(buf: array<byte>, done: nat, length: nat) returns (count: nat)
      requires Valid() && done < length <= buf.Length <= USIZE_MAX && offset + length <= size
      requires done > 0 ==> offset + done <= |file.Contents()| && buf[..done] == file.Contents()[offset..offset + done]
      modifies buf
      ensures count <= length - done && (count == 0 ==> offset + done >= |file.Contents()|)
      ensures count > 0 ==>
                && offset + done + count <= |file.Contents()|
                && buf[..done + count] == file.Contents()[offset..offset + done + count]
      ensures buf[length..] == old(buf[length..])
    {
      hide Utf8, Tight, Join, Slice;
      var part := new byte[length - done];
      count := ReadAt(file, part, offset + done);
      forall i | 0 <= i < count {
        buf[done + i] := part[i];
      }
      if count > 0 {
        Joined(buf[..], part[..], file.Contents(), offset, done, count);
      }
    }

    /** Reads the next bytes of the image, as many as the buffer takes. If the file has
        become shorter than it was, the cursor does not move. */
    method Read(buf: array<byte>) returns (r: Result<nat>)
      requires Valid() && buf.Length <= USIZE_MAX
      modifies this, buf
      ensures Valid()
      ensures r.Success? ==>
                && r.value == (if buf.Length <= size - old(offset) then buf.Length else size - old(offset))
                && offset == old(offset) + r.value && (r.value > 0 ==> offset <= |file.Contents()|)
      ensures r.Success? && r.value > 0 ==> buf[..r.value] == file.Contents()[old(offset)..old(offset) + r.value]
      ensures r.Success? ==> buf[r.value..] == old(buf[r.value..])
      ensures r.Failure? ==> offset == old(offset) && |file.Contents()| < size
    {
      hide Utf8, Tight, Join, Slice;
      ghost var image := file.Contents();
      var length := if buf.Length <= size - offset then buf.Length else size - offset;
      var done := 0;
      while done < length
        invariant 0 <= done <= length && offset == old(offset)
        invariant file.Contents() == image
        invariant done > 0 ==> offset + done <= |image| && buf[..done] == image[offset..offset + done]
        invariant buf[length..] == old(buf[length..])
      {
        var count := ReadMore(buf, done, length);
        if count == 0 {
          return Failure(ShortRead(length - done, count));
        }
        done := done + count;
      }
      offset := offset + length;
      return Success(length);
    }
  }

  /** What was read so far and what was read now are consecutive. */
  lemma Joined(buf: seq<byte>, part: seq<byte>, image: seq<byte>, offset: nat, done: nat, count: nat)
    requires done + count <= |buf| && count <= |part| && offset + done + count <= |image|
    requires done > 0 ==> buf[..done] == image[offset..offset + done]
    requires part[..count] == image[offset + done..offset + done + count]
    requires forall i :: 0 <= i < count ==> buf[done + i] == part[i]
    ensures buf[..done + count] == image[offset..offset + done + count]
  {
    forall i | 0 <= i < done + count
      ensures buf[i] == image[offset..offset + done + count][i]
    {
      if i < done {
        assert buf[..done][i] == image[offset..offset + done][i];
      } else {
        assert buf[done + (i - done)] == part[..count][i - done];
      }
    }
  }

  /** A backend read: some of the bytes there are, and none only at the end. The memory
      file gives all of them; other backends may give fewer. */
  method ReadAt(file: MemChunksFile, buf: array<byte>, offset: nat) returns (count: nat)
    requires file.Valid() && offset <= U64_MAX && buf.Length <= USIZE_MAX
    modifies buf
    ensures count <= buf.Length && (count == 0 <==> buf.Length == 0 || offset >= |file.Contents()|)
    ensures count > 0 ==> offset + count <= |file.Contents()| && buf[..count] == file.Contents()[offset..offset + count]
  {
    count := file.Read(buf, offset);
    ghost var all := Slice(file.Contents(), offset, buf.Length);
    assert |buf[..count]| == count;
    var fewer: nat := *;
    if 0 < fewer < count {
      assert buf[..fewer] == all[..fewer];
      count := fewer;
    }
  }

  // Whole transfers.

  method BeginImport(vfs: MemVfs, name: Name, size: nat, mode: ImportMode) returns (r: Result<DbImport>)
    requires vfs.Valid() && size <= U64_MAX
    ensures vfs.Valid()
    ensures r.Success? ==>
              && fresh(r.value) && fresh(r.value.target.file)
              && r.value.Valid() && !r.value.failed && r.value.received == []
              && r.value.target.vfs == vfs && r.value.target.filename == name
              && r.value.size == size && r.value.mode == mode && name !in vfs.files
    ensures CanBegin(vfs.files, name, mode, size) ==> r.Success?
  {
    hide Utf8, Tight, ValidMemFilename;
    if mode == Checked && ValidateSize(size).Failure? {
      return Failure(ValidateSize(size).error);
    }
    var created := CreateImport(vfs, name, size);
    if created.Failure? {
      return Failure(created.error);
    }
    var db := new DbImport(created.value, size, mode);
    return Success(db);
  }

  /** An import under this name can begin. */
  ghost predicate CanBegin(files: map<Name, MemChunksFile>, name: Name, mode: ImportMode, size: nat) {
    && ValidMemFilename(name) && name !in files && size <= USIZE_MAX && (mode == Checked ==> ValidateSize(size) == OK)
  }

  /** Nothing but a backend failure stands in the way of importing this image. */
  ghost predicate Importable(files: map<Name, MemChunksFile>, name: Name, mode: ImportMode, size: nat,
                             image: seq<byte>) {
    CanBegin(files, name, mode, size) && Acceptable(mode, size, image)
  }

  /** An import of an image cut into these pieces, given up at the first failure. */
  method ImportPieces(vfs: MemVfs, name: Name, size: nat, mode: ImportMode, pieces: seq<seq<byte>>)
    returns (r: Result<()>)
    requires vfs.Valid() && size <= U64_MAX && forall p :: p in pieces ==> |p| <= USIZE_MAX
    modifies vfs
    ensures vfs.Valid() && (r == OK || r.Failure?)
    ensures r == OK ==>
              && Acceptable(mode, size, Concat(pieces)) && name !in old(vfs.files) && name in vfs.files
              && vfs.files == old(vfs.files)[name := vfs.files[name]] && fresh(vfs.files[name])
              && vfs.files[name].Contents() == Stored(mode, Concat(pieces))
    ensures r.Failure? ==> vfs.files == old(vfs.files)
    ensures CanBegin(old(vfs.files), name, mode, size) ==>
              r == Outcome(mode, size, [], pieces) || (r.Failure? && r.error.Backend?)
    ensures Importable(old(vfs.files), name, mode, size, Concat(pieces)) ==> r == OK || (r.Failure? && r.error.Backend?)
  {
    hide Utf8, Tight, ValidMemFilename, CheckImportHeader, Acceptable, ValidateSize, Stored, Verdict, Join, Accepted;
    var begun := BeginImport(vfs, name, size, mode);
    if begun.Failure? {
      return Failure(begun.error);
    }
    var db := begun.value;
    ghost var whole := Outcome(mode, size, [], pieces);
    BeginsSound(db);
    AcceptanceIgnoresChunks(mode, size, pieces, pieces);
    OutcomeAccepted(mode, size, [], pieces);
    NoPieces();
    for i := 0 to |pieces|
      invariant db.Valid() && !db.failed && db.received == Concat(pieces[..i])
      invariant vfs.files == old(vfs.files) && vfs.Valid()
      invariant Outcome(mode, size, db.received, pieces[i..]) == whole
    {
      OnePieceMore(pieces, i);
      assert pieces[i] in pieces && pieces[i..][0] == pieces[i] && pieces[i..][1..] == pieces[i + 1..];
      VerdictOrOK(mode, size, db.received, pieces[i]);
      var written := db.Write(pieces[i]);
      if written.Failure? {
        return written;
      }
    }
    assert pieces[..|pieces|] == pieces && pieces[|pieces|..] == [];
    r := db.Finish();
  }

  lemma BeginsSound(db: DbImport)
    requires db.Valid() && !db.failed
    ensures Started(db.mode, db.size, db.received)
  {
  }

  lemma NoPieces()
    ensures Concat([]) == []
  {
  }

  lemma OnePieceMore(pieces: seq<seq<byte>>, i: nat)
    requires i < |pieces|
    ensures Concat(pieces[..i + 1]) == Concat(pieces[..i]) + pieces[i]
  {
    assert pieces[..i + 1] == pieces[..i] + [pieces[i]];
    JoinAppend(pieces[..i], [pieces[i]]);
    JoinFirst(pieces[i], []);
    assert [pieces[i]] + [] == [pieces[i]];
    assert Join([]) == [];
  }

  /** `import_db`: one piece, with the header checked before the name is taken. */
  method ImportDb(vfs: MemVfs, name: Name, bytes: seq<byte>) returns (r: Result<()>)
    requires vfs.Valid() && |bytes| <= USIZE_MAX
    modifies vfs
    ensures vfs.Valid() && (r == OK || r.Failure?)
    ensures CheckImportHeader(bytes, |bytes|).Failure? ==> r == CheckImportHeader(bytes, |bytes|)
    ensures r == OK ==>
              && name !in old(vfs.files) && name in vfs.files && vfs.files == old(vfs.files)[name := vfs.files[name]]
              && vfs.files[name].Contents() == Stored(Checked, bytes)
    ensures r.Failure? ==> vfs.files == old(vfs.files)
    ensures CheckImportHeader(bytes, |bytes|) == OK && ValidMemFilename(name) && name !in old(vfs.files) ==>
              r == OK || (r.Failure? && r.error.Backend?)
  {
    hide Utf8, Tight, ValidMemFilename, Stored, Accepted;
    r := CheckImportHeader(bytes, |bytes|);
    if r.Failure? {
      return;
    }
    OnlyPiece(bytes);
    HeaderPrefix(bytes);
    r := ImportPieces(vfs, name, |bytes|, Checked, [bytes]);
  }

  lemma OnlyPiece(bytes: seq<byte>)
    ensures Concat([bytes]) == bytes
  {
    JoinFirst(bytes, []);
    assert [bytes] + [] == [bytes];
    assert Join([]) == [];
  }

  lemma HeaderPrefix(bytes: seq<byte>)
    ensures CheckImportHeader(bytes, |bytes|) == OK ==>
              Acceptable(Checked, |bytes|, bytes) && ValidateSize(|bytes|) == OK
  {
    if |bytes| >= 18 {
      var h := bytes[..18];
      assert h[..16] == bytes[..16];
    }
  }

  function Sum(sizes: seq<nat>): nat {
    if sizes == [] then 0 else Sum(sizes[..|sizes| - 1]) + sizes[|sizes| - 1]
  }

  function Least(a: nat, b: nat): nat {
    if a <= b then a else b
  }

  lemma OneMoreRead(image: seq<byte>, from: nat, count: nat)
    requires from + count <= |image|
    ensures image[..from] + image[from..from + count] == image[..from + count]
  {
  }

  /** An export through buffers of these sizes. */
  method ExportPieces(vfs: MemVfs, name: Name, sizes: seq<nat>) returns (r: Result<seq<byte>>)
    requires vfs.Valid() && forall n :: n in sizes ==> n <= USIZE_MAX
    ensures vfs.Valid()
    ensures name !in vfs.files ==> r == Failure(NotFound)
    ensures name in vfs.files ==>
              var image := vfs.files[name].Contents(); r == Success(image[..Least(Sum(sizes), |image|)])
  {
    hide Utf8, Tight, Join, Slice;
    if name !in vfs.files {
      return Failure(NotFound);
    }
    var file := vfs.files[name];
    var db := new DbExport(file);
    ghost var image := file.Contents();
    var out: seq<byte> := [];
    for i := 0 to |sizes|
      invariant db.Valid() && vfs.Valid() && file.Contents() == image && db.file == file && db.size == |image|
      invariant db.offset == Least(Sum(sizes[..i]), |image|) && out == image[..db.offset]
    {
      assert sizes[..i + 1][..i] == sizes[..i] && sizes[i] in sizes;
      var buf := new byte[sizes[i]];
      ghost var from := db.offset;
      var count := db.Read(buf);
      assert file.Contents() == image;
      assert count.Success?;
      OneMoreRead(image, from, count.value);
      out := out + buf[..count.value];
    }
    assert sizes[..|sizes|] == sizes;
    return Success(out);
  }

  /** `export_db`: the whole image in one allocation. */
  method ExportDb(vfs: MemVfs, name: Name) returns (r: Result<seq<byte>>)
    requires vfs.Valid()
    ensures r == Failure(NotFound) <==> name !in vfs.files
    ensures r.Success? ==> r.value == vfs.files[name].Contents()
    ensures r.Failure? ==> r.error in {NotFound, FileTooLarge, OutOfMemory}
    ensures r == Failure(FileTooLarge) <==> name in vfs.files && |vfs.files[name].Contents()| > ISIZE_MAX
  {
    hide Utf8, Tight;
    if name !in vfs.files {
      return Failure(NotFound);
    }
    var file := vfs.files[name];
    var db := new DbExport(file);
    var size := db.size - db.offset;
    if size > ISIZE_MAX {
      return Failure(FileTooLarge);
    }
    if * {
      return Failure(OutOfMemory);
    }
    var bytes := new byte[size];
    var count := db.Read(bytes);
    assert bytes[..size] == bytes[..];
    return Success(bytes[..]);
  }

  /** Import in any pieces, export through any buffers: what comes back is what went in,
      with the two version bytes reset if the import was checked. */
  method RoundTrip(vfs: MemVfs, name: Name, mode: ImportMode, pieces: seq<seq<byte>>, sizes: seq<nat>)
    returns (r: Result<seq<byte>>)
    requires vfs.Valid() && |Concat(pieces)| <= USIZE_MAX && (forall p :: p in pieces ==> |p| <= USIZE_MAX)
    requires (forall n :: n in sizes ==> n <= USIZE_MAX) && Sum(sizes) >= |Concat(pieces)|
    modifies vfs
    ensures r.Success? ==>
              var image := Concat(pieces);
              && |r.value| == |image|
              && forall i :: 0 <= i < |image| ==>
                   r.value[i] == if mode == Checked && (i == 18 || i == 19) then 1 else image[i]
    ensures Importable(old(vfs.files), name, mode, |Concat(pieces)|, Concat(pieces)) ==> r.Success? || r.error.Backend?
  {
    hide Utf8, Tight, ValidMemFilename, CheckImportHeader, Join, Sum;
    ghost var image := Concat(pieces);
    var size := TotalSize(pieces);
    var imported := ImportPieces(vfs, name, size, mode, pieces);
    if imported.Failure? {
      return Failure(imported.error);
    }
    r := ExportPieces(vfs, name, sizes);
    assert Stored(mode, image)[..|image|] == Stored(mode, image);
    LargeEnough(mode, size, image);
    StoredBytes(mode, image);
  }

  lemma LargeEnough(mode: ImportMode, size: nat, image: seq<byte>)
    requires Acceptable(mode, size, image)
    ensures mode == Checked ==> |image| >= 512
  {
  }

  lemma StoredBytes(mode: ImportMode, image: seq<byte>)
    requires mode == Checked ==> |image| >= 20
    ensures |Stored(mode, image)| == |image|
    ensures forall i :: 0 <= i < |image| ==>
              Stored(mode, image)[i] == if mode == Checked && (i == 18 || i == 19) then 1 else image[i]
  {
  }

  method TotalSize(pieces: seq<seq<byte>>) returns (size: nat)
    ensures size == |Concat(pieces)|
  {
    size := 0;
    NoPieces();
    for i := 0 to |pieces|
      invariant size == |Concat(pieces[..i])|
    {
      OnePieceMore(pieces, i);
      size := size + |pieces[i]|;
    }
    assert pieces[..|pieces|] == pieces;
  }
}
