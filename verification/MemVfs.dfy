/** The in-memory file system, and imports into it and exports from it. */
module MemVfs {
  import opened Common
  import opened Bytes
  import opened SlotHeader
  import opened MemChunks
  import opened TransferRules

  const MAX_MEM_FILENAME_SIZE: nat := 1012

  predicate ValidMemFilename(name: Name) {
    name != [] && 0 !in name && |name| <= MAX_MEM_FILENAME_SIZE
  }

  /** Database names are those to which SQLite can append up to 12 characters within 1024. */
  lemma SuffixesFit(name: Name)
    ensures ValidMemFilename(name) <==>
            && name != [] && 0 !in name
            && forall suffix: Name :: |suffix| <= 12 ==> |name + suffix| <= 1024
  {
    var longest: Name := seq(12, _ => 45);
    assert |name + longest| == |name| + 12;
  }

  /** An independent open instance that shares the file's data. */
  datatype MemFileHandle = MemFileHandle(file: MemChunksFile, readOnly: bool)

  class MemVfs {
    var files: map<Name, MemChunksFile>

    /** Every file is valid, and no two names share one. */
    ghost predicate Valid()
      reads this, files.Values
    {
      && (forall n :: n in files ==> files[n].Valid())
      && (forall m, n :: m in files && n in files && files[m] == files[n] ==> m == n)
    }

    constructor ()
      ensures Valid() && files == map[]
    {
      files := map[];
    }

    /** Opens a file by name, or an anonymous one; what did not exist starts empty. */
    method OpenFile(filename: Option<Name>, flags: Flags) returns (r: Result<MemFileHandle>)
      requires Valid() && OptionsOk(flags)
      modifies this
      ensures Valid()
      ensures r.Success? ==> r.value.file.Valid() && r.value.readOnly == Has(flags, READONLY)
      ensures match filename
              case None => r.Success? && fresh(r.value.file) && r.value.file.Contents() == [] && files == old(files)
              case Some(name) =>
                if Has(flags, MAIN_DB) && !ValidMemFilename(name) then r == Failure(InvalidFilename)
                else if name in old(files) then
                  if Has(flags, EXCLUSIVE) then r == Failure(AlreadyExists)
                  else r.Success? && r.value.file == old(files)[name] && files == old(files)
                else if !Has(flags, CREATE) then r == Failure(NotFound)
                else r.Success? && fresh(r.value.file) && r.value.file.Contents() == []
                     && r.value.file.chunkSize == (if Has(flags, MAIN_DB) then None else Some(512))
                     && files == old(files)[name := r.value.file]
      ensures r.Failure? ==> files == old(files)
    {
      hide Has, Utf8, ValidMemFilename, Tight, OptionsOk;
      if filename.None? {
        var file := new MemChunksFile.New(512);
        return Success(MemFileHandle(file, Has(flags, READONLY)));
      }
      var name := filename.value;
      if Has(flags, MAIN_DB) && !ValidMemFilename(name) {
        return Failure(InvalidFilename);
      }
      if name in files {
        if Has(flags, EXCLUSIVE) {
          return Failure(AlreadyExists);
        }
        return Success(MemFileHandle(files[name], Has(flags, READONLY)));
      }
      if !Has(flags, CREATE) {
        return Failure(NotFound);
      }
      var file;
      if Has(flags, MAIN_DB) {
        file := new MemChunksFile.WaitingForWrite();
      } else {
        file := new MemChunksFile.New(512);
      }
      files := files[name := file];
      return Success(MemFileHandle(file, Has(flags, READONLY)));
    }

    /** Closes a handle. Delete-on-close removes the name only while it still is the file
        that was opened, never a replacement created under the same name. */
    method CloseFile(name: Option<Name>, file: MemFileHandle, deleteOnClose: bool)
      requires Valid()
      modifies this
      ensures Valid()
      ensures files == if deleteOnClose && name.Some? && name.value in old(files) && old(files)[name.value] == file.file
                       then old(files) - {name.value} else old(files)
    {
      if name.None? {
        return;
      }
      if deleteOnClose {
        if name.value in files && files[name.value] == file.file {
          files := files - {name.value};
        }
      }
    }

    /** Forgets a name. Open handles keep the file's data. */
    method DeleteFile(name: Name) returns (r: Result<()>)
      requires Valid()
      modifies this
      ensures Valid() && files == old(files) - {name}
      ensures r == if name in old(files) then OK else Failure(NotFound)
    {
      if name !in files {
        assert files - {name} == files;
        return Failure(NotFound);
      }
      files := files - {name};
      return OK;
    }
  }

  /** An import destination, unpublished until it is committed. */
  datatype MemImportTarget = MemImportTarget(vfs: MemVfs, filename: Name, file: MemChunksFile)
  {
    ghost predicate Valid()
      reads vfs, vfs.files.Values, file
    {
      vfs.Valid() && file.Valid() && file !in vfs.files.Values
    }
  }

  method CreateImport(vfs: MemVfs, name: Name, size: nat) returns (r: Result<MemImportTarget>)
    requires vfs.Valid() && size <= U64_MAX
    ensures if !ValidMemFilename(name) then r == Failure(InvalidFilename)
            else if name in vfs.files then r == Failure(AlreadyExists)
            else if size > USIZE_MAX then r == Failure(Backend(Full))
            else r.Success? && r.value.vfs == vfs && r.value.filename == name && fresh(r.value.file)
    ensures r.Success? ==> r.value.Valid() && r.value.file.Contents() == []
    ensures vfs.Valid()
  {
    if !ValidMemFilename(name) {
      return Failure(InvalidFilename);
    }
    if name in vfs.files {
      return Failure(AlreadyExists);
    }
    if size > USIZE_MAX {
      return Failure(Backend(Full));
    }
    var file := new MemChunksFile.New(4096);
    return Success(MemImportTarget(vfs, name, file));
  }

  method WriteAt(target: MemImportTarget, offset: nat, bytes: seq<byte>) returns (r: Result<()>)
    requires target.Valid() && offset <= U64_MAX && |bytes| <= USIZE_MAX
    modifies target.file
    ensures target.Valid()
    ensures r == OK || r.Failure?
    ensures r == OK ==> target.file.Contents() == Patched(old(target.file.Contents()), offset, bytes)
    ensures r.Failure? ==> target.file.Contents() == old(target.file.Contents()) && r.error.Backend?
  {
    var written := target.file.Write(bytes, offset);
    return match written case Ok => OK case Err(e) => Failure(Backend(e));
  }

  method Commit(target: MemImportTarget) returns (r: Result<()>)
    requires target.Valid()
    modifies target.vfs
    ensures target.vfs.Valid()
    ensures if target.filename in old(target.vfs.files) then
              r == Failure(AlreadyExists) && target.vfs.files == old(target.vfs.files)
            else r == OK && target.vfs.files == old(target.vfs.files)[target.filename := target.file]
  {
    if target.filename in target.vfs.files {
      return Failure(AlreadyExists);
    }
    target.vfs.files := target.vfs.files[target.filename := target.file];
    return OK;
  }
}
