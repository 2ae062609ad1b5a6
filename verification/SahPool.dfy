/** The slot pool as a class. Each method is one uninterrupted stretch of the original's
    code: an asynchronous operation is split where it awaits, and whatever is between two
    calls can be interleaved with it. Header, flush, truncate and directory operations
    fail without warning, with or without having taken effect. */
module SahPool {
  import opened Common
  import opened Bytes
  import opened SlotHeader
  import opened PoolDisk
  import opened PoolState

  /** One pool. `trail` holds the disk after every single I/O step, so a crash at any
      moment starts from one of its elements. `kept` says that all files were opened with
      recoverable flags, `settled` that the pool started on a disk without headers in doubt
      and has not since released slots while it needed recovery. */
  class OpfsSAHPool {
    var state: PoolPhase
    var op: Operation
    var needsRecovery: bool
    var available: seq<SlotId>
    var names: map<Name, SlotId>
    var quarantined: seq<SlotId>
    var handles: map<nat, Handle>
    var openCount: map<SlotId, nat>
    var nextHandle: nat
    var disk: Disk
    ghost var trail: seq<Disk>
    ghost var kept: bool
    ghost var settled: bool
    ghost var began: nat
    ghost var exported: seq<byte>

    function Count(s: SlotId): nat
      reads this
    {
      Opens(openCount, s)
    }

    ghost function Now(): View
      reads this
    {
      View(state, op, needsRecovery, settled, available, names, quarantined, disk)
    }

    ghost predicate Healthy()
      reads this
    {
      state == Active && !needsRecovery
    }

    predicate InDoubt()
      reads this
    {
      state == Active && needsRecovery
    }

    ghost predicate Valid()
      reads this
    {
      && TrailOk(trail, disk, kept)
      && SlotsOk(Now())
      && HandlesOk(handles, openCount, nextHandle, names)
      && OperationOk(Now(), openCount, trail, began, exported)
    }

    function CheckState(): Outcome
      reads this
    {
      match state
      case Active => Done
      case Paused => Failed(PoolPaused)
      case Removed => Failed(Uninstalled)
    }

    function CheckActive(): Outcome
      reads this
    {
      if CheckState() != Done then CheckState()
      else if op != Idle then Failed(Busy)
      else if needsRecovery then Failed(Error.NeedsRecovery)
      else Done
    }

    predicate Closed()
      reads this
    {
      AllClosed(openCount, names)
    }

    // Slot I/O. Each step appends the disk it leaves to the trail.

    method Put(s: SlotId, slot: Slot)
      modifies this`disk, this`trail
      ensures disk == old(disk)[s := slot] && trail == old(trail) + [disk]
    {
      disk := disk[s := slot];
      trail := trail + [disk];
    }

    method WriteHeader(s: SlotId, h: Header) returns (ok: bool)
      requires s in disk
      modifies this`disk, this`trail
      ensures trail == old(trail) + [disk]
      ensures disk == old(disk)[s := old(disk[s]).(header := h, may := old(disk[s].may) + {h})]
           || disk == old(disk)[s := old(disk[s]).(may := old(disk[s].may) + {h})]
      ensures ok ==> disk[s].header == h
    {
      var was := disk[s];
      ok := *;
      var landed: bool := *;
      var now := if ok || landed then h else was.header;
      Put(s, was.(header := now, may := was.may + {h}));
    }

    method Flush(s: SlotId) returns (ok: bool)
      requires s in disk
      modifies this`disk, this`trail
      ensures trail == old(trail) + [disk]
      ensures disk == if ok then old(disk[s := Flushed(disk[s])]) else old(disk)
    {
      ok := *;
      var was := disk[s];
      Put(s, if ok then Flushed(was) else was);
      assert old(disk)[s := was] == old(disk);
    }

    method TruncateToHeader(s: SlotId) returns (ok: bool)
      requires s in disk
      modifies this`disk, this`trail
      ensures trail == old(trail) + [disk]
      ensures disk == old(disk)[s := old(disk[s]).(body := [], durable := false)] || disk == old(disk)
      ensures ok ==> disk[s] == old(disk[s]).(body := [], durable := false)
    {
      ok := *;
      var landed: bool := *;
      var was := disk[s];
      Put(s, if ok || landed then was.(body := [], durable := false) else was);
      assert old(disk)[s := was] == old(disk);
    }

    /** Writes a header, flushes it, and for a blank one then drops the content. */
    method Associate(s: SlotId, h: Header) returns (r: Outcome)
      requires s in disk && WellFormed(disk) && !disk[s].header.Short? && !h.Short?
      requires trail != [] && trail[|trail| - 1] == disk
      modifies this`disk, this`trail
      ensures |old(trail)| <= |trail| && trail[..|old(trail)|] == old(trail) && trail[|trail| - 1] == disk
      ensures forall i :: |old(trail)| <= i < |trail| ==> DiskPoint(old(disk), s, h, trail[i])
      ensures DiskPoint(old(disk), s, h, disk) && !disk[s].header.Short?
      ensures r == Done ==> disk[s] == if h.Named? then Slot(h, {h}, old(disk[s].body), true) else CLEAN
      ensures r == Failed(InvalidFilename) <==> h.Named? && !Storable(h.name)
      ensures r == Failed(InvalidFilename) ==> trail == old(trail)
      ensures r.Failed? ==> r.error == InvalidFilename || r.error == Io
    {
      if h.Named? && !Storable(h.name) {
        return Failed(InvalidFilename);
      }
      hide DiskPoint, WellFormed;
      NoPointYet(disk, s, h);
      WritePoint(disk, s, h, h);
      WritePoint(disk, s, h, disk[s].header);
      var ok := WriteHeader(s, h);
      if !ok {
        return Failed(Io);
      }
      FlushPoint(old(disk), s, h, disk);
      ok := Flush(s);
      if !ok {
        return Failed(Io);
      }
      if h == Blank {
        ok := Truncate(s, old(disk));
        if !ok {
          return Failed(Io);
        }
      }
      return Done;
    }

    /** Drops the content behind a durable blank header. */
    method Truncate(s: SlotId, ghost before: Disk) returns (ok: bool)
      requires s in disk && disk[s].header == Blank && disk[s].may == {Blank} && DiskPoint(before, s, Blank, disk)
      requires trail != [] && trail[|trail| - 1] == disk
      modifies this`disk, this`trail
      ensures |old(trail)| <= |trail| && trail[..|old(trail)|] == old(trail) && trail[|trail| - 1] == disk
      ensures forall i :: |old(trail)| <= i < |trail| ==> DiskPoint(before, s, Blank, trail[i])
      ensures DiskPoint(before, s, Blank, disk) && s in disk && !disk[s].header.Short?
      ensures ok ==> disk[s] == CLEAN
    {
      hide DiskPoint, WellFormed;
      TruncatePoint(before, s, disk);
      ok := TruncateToHeader(s);
      if ok {
        FlushPoint(before, s, Blank, disk);
        ok := Flush(s);
      }
    }

    /** `associate(None, 0)`: gives the slot up. No step of it shows a new name. */
    method Release(s: SlotId) returns (ok: bool)
      requires s in disk && !disk[s].header.Short? && TrailOk(trail, disk, kept)
      modifies this`disk, this`trail
      ensures TrailOk(trail, disk, kept) && Quiet(old(trail), old(disk), trail, disk) && OnlyChanges(old(disk), s, disk)
      ensures forall i :: |old(trail)| <= i < |trail| ==> DiskPoint(old(disk), s, Blank, trail[i])
      ensures DiskPoint(old(disk), s, Blank, disk) && s in disk && !disk[s].header.Short?
      ensures ok ==> disk == old(disk)[s := CLEAN]
    {
      var r := Associate(s, Blank);
      forall i | |old(trail)| <= i < |trail|
        ensures NoNewNames(old(disk), trail[i])
      {
        PointIsQuiet(old(disk), s, trail[i]);
      }
      QuietTrail(old(trail), old(disk), trail, disk, kept);
      return r == Done;
    }

    /** `associate(Some(name), flags)` on a blank slot, for a name that is nowhere. */
    method Publish(s: SlotId, h: Header) returns (r: Outcome)
      requires s in disk && h.Named? && disk[s].header == Blank && disk[s].may == {Blank} && Absent(disk, h.name)
      requires TrailOk(trail, disk, kept) && (kept ==> Recoverable(h.flags))
      modifies this`disk, this`trail
      ensures TrailOk(trail, disk, kept) && DiskPoint(old(disk), s, h, disk) && OnlyChanges(old(disk), s, disk)
      ensures |old(trail)| <= |trail| && trail[..|old(trail)|] == old(trail)
      ensures forall i :: |old(trail)| <= i < |trail| ==> DiskPoint(old(disk), s, h, trail[i])
      ensures r == Done ==> disk == old(disk)[s := Slot(h, {h}, old(disk[s].body), true)]
      ensures r == Failed(InvalidFilename) <==> !Storable(h.name)
      ensures r.Failed? ==> r.error == InvalidFilename || r.error == Io
      ensures s in disk && !disk[s].header.Short?
    {
      r := Associate(s, h);
      PublishedTrail(old(trail), old(disk), s, h, trail, disk, kept);
    }

    // Deleting and creating names.

    /** Removes a name that no handle has open; its slot becomes the next to be used. If
        the header cannot be given up the name stays and the pool needs recovery. At every
        moment a crash leaves the name with its content, or not at all. */
    method DeleteFile(name: Name) returns (r: Outcome, found: bool)
      requires Valid()
      modifies this`disk, this`trail, this`names, this`available, this`needsRecovery
      ensures Valid() && Now().Held() == old(Now()).Held() && Now().Capacity() == old(Now()).Capacity()
      ensures old(CheckActive()) != Done ==> r == old(CheckActive())
      ensures old(CheckActive()) == Done ==>
                && (found <==> name in old(names))
                && (r == Failed(FileInUse) <==> found && old(Count(names[name])) != 0)
                && (r.Failed? ==> found && (r.error == FileInUse || r.error == Io))
      ensures r == Done && found ==> Now() == AfterDelete(old(Now()), name)
      ensures r == Done && found ==>
                && names == old(names) - {name} && available == old(available) + [old(names[name])]
                && disk == old(disk)[old(names[name]) := Slot(Blank, {Blank}, [], true)]
      ensures name in old(names) ==> forall i :: |old(trail)| <= i < |trail| ==>
                DiskPoint(old(disk), old(names[name]), Blank, trail[i])
      ensures r == Failed(Io) ==> Now() == old(Now()).(needsRecovery := true, disk := disk)
      ensures r == Failed(Io) ==> name in old(names) && DiskPoint(old(disk), old(names[name]), Blank, disk)
      ensures if name in old(names) then OnlyChanges(old(disk), old(names[name]), disk) else disk == old(disk)
      ensures !(r == Done && found) && r != Failed(Io) ==> Now() == old(Now()) && trail == old(trail)
    {
      hide SlotsOk, TrailOk, HandlesOk, OperationOk, Quiet, DiskPoint, HeldSlots, OnlyChanges, AfterDelete;
      found := false;
      r := CheckActive();
      if name in names {
        NothingChanges(disk, names[name]);
      }
      if r != Done || name !in names {
        return;
      }
      found := true;
      if Count(names[name]) != 0 {
        r := Failed(FileInUse);
        return;
      }
      AfterDeleteIs(Now(), name);
      var ok := GiveUpName(name);
      if !ok {
        needsRecovery := true;
        r := Failed(Io);
        NothingHeld(Now(), openCount, trail, began, exported);
      }
    }

    /** Moves a name's slot to the unassigned ones, once its header is given up. */
    method GiveUpName(name: Name) returns (ok: bool)
      requires Valid() && op == Idle && name in names && Count(names[name]) == 0
      modifies this`disk, this`trail, this`names, this`available
      ensures Now().Held() == old(Now()).Held() && Now().Capacity() == old(Now()).Capacity()
      ensures |old(trail)| <= |trail| && trail[..|old(trail)|] == old(trail)
      ensures forall i :: |old(trail)| <= i < |trail| ==> DiskPoint(old(disk), old(names[name]), Blank, trail[i])
      ensures if ok then Valid() && Now() == AfterDelete(old(Now()), name) else Now() == old(Now()).(disk := disk)
      ensures OnlyChanges(old(disk), old(names[name]), disk) && DiskPoint(old(disk), old(names[name]), Blank, disk)
      ensures !ok ==> TrailOk(trail, disk, kept) && SlotsOk(Now().(needsRecovery := true))
                      && HandlesOk(handles, openCount, nextHandle, names)
    {
      hide SlotsOk, TrailOk, HandlesOk, OperationOk, Quiet, DiskPoint, HeldSlots, OnlyChanges;
      var s := names[name];
      InPlaceSlot(Now(), name);
      ok := Release(s);
      QuietPrefix(old(trail), old(disk), trail, disk);
      if !ok {
        Doubted(old(Now()), s, disk);
        return;
      }
      Deleted(old(Now()), name);
      Forgotten(handles, openCount, nextHandle, names, name);
      available := available + [s];
      names := names - {name};
      NothingHeld(Now(), openCount, trail, began, exported);
    }

    /** Gives a new name to the next unassigned slot. If that fails the slot is emptied
        again, or set aside when that fails too. */
    method WithNewFile(name: Name, flags: Flags) returns (r: Outcome)
      requires Valid()
      modifies this`disk, this`trail, this`names, this`available, this`quarantined, this`needsRecovery, this`kept
      ensures Valid() && Now().Held() == old(Now()).Held() && Now().Capacity() == old(Now()).Capacity()
      ensures kept == (old(kept) && Recoverable(flags)) || (kept == old(kept) && r.Failed?)
      ensures old(CheckActive()) != Done ==> r == old(CheckActive())
      ensures old(CheckActive()) == Done ==>
                && (r == Failed(FileExists) <==> name in old(names))
                && (r == Failed(NoCapacity) ==> old(available) == [])
                && (r == Failed(InvalidFilename) ==> !Storable(name))
                && (r.Failed? ==> r.error in {FileExists, OutOfMemory, NoCapacity, InvalidFilename, Io, Cleanup})
      ensures r == Done ==> name !in old(names) && Storable(name) && old(available) != []
                            && Now() == AfterCreate(old(Now()), name, flags, [])
      ensures r == Failed(Cleanup) ==> old(available) != [] && Now() == AfterSetAside(old(Now()), disk)
      ensures r.Failed? && r.error != Cleanup ==> Now() == old(Now())
    {
      hide SlotsOk, TrailOk, HandlesOk, OperationOk, Quiet, DiskPoint, HeldSlots, Absent, Recoverable, Storable,
        OnlyChanges, Has, Recover;
      r := CheckActive();
      if r != Done {
        return;
      }
      if name in names {
        return Failed(FileExists);
      }
      if * {
        return Failed(OutOfMemory);
      }
      if available == [] {
        return Failed(NoCapacity);
      }
      r := AssignTop(name, flags);
    }

    method AssignTop(name: Name, flags: Flags) returns (r: Outcome)
      requires Valid() && CheckActive() == Done && name !in names && available != []
      modifies this`disk, this`trail, this`names, this`available, this`quarantined, this`needsRecovery, this`kept
      ensures Valid() && kept == (old(kept) && Recoverable(flags))
      ensures Now().Held() == old(Now()).Held() && Now().Capacity() == old(Now()).Capacity()
      ensures r == Done ==> Storable(name) && Now() == AfterCreate(old(Now()), name, flags, [])
      ensures r.Failed? ==> r.error in {InvalidFilename, Io, Cleanup}
      ensures r == Failed(InvalidFilename) ==> !Storable(name)
      ensures r == Failed(Cleanup) ==> Now() == AfterSetAside(old(Now()), disk)
      ensures r.Failed? && r.error != Cleanup ==> Now() == old(Now())
    {
      hide SlotsOk, TrailOk, HandlesOk, OperationOk, Quiet, DiskPoint, HeldSlots, Absent, Recoverable, Storable,
        OnlyChanges, Has, Recover;
      var s := available[|available| - 1];
      TopSlot(Now());
      Nowhere(Now(), name);
      WeakerTrail(trail, disk, kept, kept && Recoverable(flags));
      kept := kept && Recoverable(flags);
      r := Claim(name, flags);
      NothingHeld(Now(), openCount, trail, began, exported);
      if r == Failed(Cleanup) {
        PutAside(old(Now()), disk);
        return;
      }
      if r.Failed? {
        return;
      }
      NameTop(name, flags, s, old(Now()));
    }

    /** The in-memory half of giving a slot a name. */
    method NameTop(name: Name, flags: Flags, s: SlotId, ghost before: View)
      requires TrailOk(trail, disk, kept) && SlotsOk(before) && HandlesOk(handles, openCount, nextHandle, names)
      requires before.Healthy() && before.op == Idle && name !in before.names && before.available != []
      requires s == Top(before)
      requires Now() == before.(available := BelowTop(before),
                                disk := before.disk[s := Slot(Named(name, flags), {Named(name, flags)}, [], true)])
      modifies this`names
      ensures Valid() && Now() == AfterCreate(before, name, flags, [])
      ensures Now().Held() == before.Held() && Now().Capacity() == before.Capacity()
    {
      hide SlotsOk, TrailOk, HandlesOk, OperationOk, HeldSlots;
      Created(before, name, flags, []);
      NewName(handles, openCount, nextHandle, names, name, s);
      names := names[name := s];
      NothingHeld(Now(), openCount, trail, began, exported);
    }

    /** Pops a slot, which is blank, and publishes it under a name that is nowhere; on
        failure the slot goes back or is set aside. */
    method Claim(name: Name, flags: Flags) returns (r: Outcome)
      requires TrailOk(trail, disk, kept) && available != [] && Absent(disk, name) && (kept ==> Recoverable(flags))
      requires available[|available| - 1] in disk && disk[available[|available| - 1]] == CLEAN
      modifies this`disk, this`trail, this`available, this`quarantined, this`needsRecovery
      ensures TrailOk(trail, disk, kept)
      ensures r.Failed? ==> r.error in {InvalidFilename, Io, Cleanup}
      ensures r == Failed(InvalidFilename) ==> !Storable(name)
      ensures var s := old(available[|available| - 1]);
              match r
              case Done =>
                && Storable(name) && disk == old(disk)[s := Slot(Named(name, flags), {Named(name, flags)}, [], true)]
                && available == old(available[..|available| - 1]) && quarantined == old(quarantined)
                && needsRecovery == old(needsRecovery)
              case Failed(Cleanup) =>
                && OnlyChanges(old(disk), s, disk) && s in disk && !disk[s].header.Short? && needsRecovery
                && available == old(available[..|available| - 1]) && quarantined == old(quarantined) + [s]
              case Failed(_) =>
                && disk == old(disk) && available == old(available) && quarantined == old(quarantined)
                && needsRecovery == old(needsRecovery)
    {
      hide TrailOk, Quiet, DiskPoint, Absent, Recoverable, Recover, Storable, OnlyChanges, Has;
      var s := available[|available| - 1];
      available := available[..|available| - 1];
      r := Publish(s, Named(name, flags));
      if r.Failed? {
        ghost var doubtful := disk;
        var cleaned := Reclaim(s);
        ChangesTwice(old(disk), s, doubtful, disk);
        if !cleaned {
          return Failed(Cleanup);
        }
        assert available == old(available);
      }
    }

    /** Puts a popped slot back empty, or sets it aside and asks for recovery. */
    method Reclaim(s: SlotId) returns (ok: bool)
      requires s in disk && !disk[s].header.Short? && TrailOk(trail, disk, kept)
      modifies this`disk, this`trail, this`available, this`quarantined, this`needsRecovery
      ensures TrailOk(trail, disk, kept) && Quiet(old(trail), old(disk), trail, disk) && OnlyChanges(old(disk), s, disk)
      ensures s in disk && !disk[s].header.Short?
      ensures if ok then
                && disk == old(disk)[s := CLEAN] && available == old(available) + [s]
                && quarantined == old(quarantined) && needsRecovery == old(needsRecovery)
              else
                available == old(available) && quarantined == old(quarantined) + [s] && needsRecovery
    {
      ok := Release(s);
      if ok {
        available := available + [s];
      } else {
        quarantined := quarantined + [s];
        needsRecovery := true;
      }
    }

    // Files as SQLite sees them.

    /** Draws a name that is not in use from at most MAX_FILENAME_ATTEMPTS random ones. */
    method TemporaryName(candidates: seq<Name>) returns (name: Option<Name>)
      requires |candidates| == MAX_FILENAME_ATTEMPTS
      ensures match name
              case None => forall c :: c in candidates ==> c in names
              case Some(n) => n in candidates && n !in names
    {
      for i := 0 to MAX_FILENAME_ATTEMPTS
        invariant forall j :: 0 <= j < i ==> candidates[j] in names
      {
        if candidates[i] !in names {
          return Some(candidates[i]);
        }
      }
      return None;
    }

    /** The lookup in the middle of opening: an existing file is used as it is unless
        exclusive creation was asked for; a created one is empty. */
    method FindOrCreate(name: Name, flags: Flags) returns (r: Outcome)
      requires Valid() && CheckActive() == Done
      modifies this`disk, this`trail, this`names, this`available, this`quarantined, this`needsRecovery, this`kept
      ensures Valid() && Now().Held() == old(Now()).Held() && Now().Capacity() == old(Now()).Capacity()
      ensures name in old(names) ==> r == if Has(flags, EXCLUSIVE) then Failed(FileExists) else Done
      ensures r == Failed(FileNotFound) <==> name !in old(names) && !Has(flags, CREATE)
      ensures r == Done ==> name in names && op == Idle
      ensures r.Failed? ==> r.error != NameCollision
      ensures r == Done && name in old(names) ==> !Has(flags, EXCLUSIVE) && Now() == old(Now())
      ensures r == Done && name !in old(names) ==>
                Has(flags, CREATE) && old(available) != [] && Now() == AfterCreate(old(Now()), name, flags, [])
      ensures r == Failed(Cleanup) ==> old(available) != [] && Now() == AfterSetAside(old(Now()), disk)
      ensures r.Failed? && r.error != Cleanup ==> Now() == old(Now())
      ensures kept == (old(kept) && Recoverable(flags)) || kept == old(kept)
    {
      hide SlotsOk, TrailOk, HandlesOk, HeldSlots, Recoverable, Recover, Has, Storable, Absent;
      if name in names {
        return if Has(flags, EXCLUSIVE) then Failed(FileExists) else Done;
      }
      if !Has(flags, CREATE) {
        return Failed(FileNotFound);
      }
      r := WithNewFile(name, flags);
    }

    predicate MayOpen(name: Name, flags: Flags) {
      Has(flags, MAIN_DB) ==> ValidFilename(name)
    }

    /** The name asked for, or a temporary one. */
    method PickName(filename: Option<Name>, flags: Flags, candidates: seq<Name>) returns (r: Outcome, name: Name)
      requires |candidates| == MAX_FILENAME_ATTEMPTS
      ensures r == Done ==>
                && MayOpen(name, flags)
                && (if filename.Some? then name == filename.value else name in candidates && name !in names)
      ensures r.Failed? ==> r.error in {NameCollision, InvalidFilename}
      ensures r == Failed(NameCollision) <==> filename.None? && forall c :: c in candidates ==> c in names
      ensures r == Failed(InvalidFilename) ==> !MayOpen(name, flags)
      ensures r == Failed(InvalidFilename) && filename.None? ==> name in candidates && name !in names
      ensures filename.Some? ==> name == filename.value && (r == Done <==> MayOpen(filename.value, flags))
    {
      r, name := Done, [];
      if filename.Some? {
        name := filename.value;
      } else {
        var temporary := TemporaryName(candidates);
        if temporary == None {
          r := Failed(NameCollision);
          return;
        }
        name := temporary.value;
      }
      if Has(flags, MAIN_DB) && !ValidFilename(name) {
        r := Failed(InvalidFilename);
      }
    }

    /** Opens the file of this name, creating it if need be, and adds a handle to it. */
    method OpenNamed(name: Name, flags: Flags) returns (r: Outcome, id: nat)
      requires Valid() && CheckActive() == Done
      modifies this`disk, this`trail, this`names, this`available, this`quarantined, this`needsRecovery, this`kept,
               this`handles, this`openCount, this`nextHandle
      ensures Valid() && Now().Held() == old(Now()).Held() && Now().Capacity() == old(Now()).Capacity()
      ensures name in old(names) ==> r == if Has(flags, EXCLUSIVE) then Failed(FileExists) else Done
      ensures r == Failed(FileNotFound) <==> name !in old(names) && !Has(flags, CREATE)
      ensures r == Done ==>
                && name in names && id !in old(handles)
                && var h := Handle(names[name], name, Has(flags, READONLY), Has(flags, DELETEONCLOSE));
                   && handles == old(handles)[id := h] && Count(h.slot) == Opens(old(openCount), h.slot) + 1
      ensures r == Done && name in old(names) ==> !Has(flags, EXCLUSIVE) && Now() == old(Now())
      ensures r == Done && name !in old(names) ==>
                Has(flags, CREATE) && old(available) != [] && Now() == AfterCreate(old(Now()), name, flags, [])
      ensures r == Done && name !in old(names) ==>
                && names == old(names)[name := names[name]] && old(available) == available + [names[name]]
                && names[name] in disk && disk[names[name]] == Slot(Named(name, flags), {Named(name, flags)}, [], true)
      ensures r.Failed? ==> r.error != NameCollision && handles == old(handles) && openCount == old(openCount)
      ensures r.Failed? && r.error != Cleanup ==> Now() == old(Now())
      ensures r == Failed(Cleanup) ==> old(available) != [] && Now() == AfterSetAside(old(Now()), disk)
      ensures kept == (old(kept) && Recoverable(flags)) || kept == old(kept)
    {
      hide SlotsOk, TrailOk, HandlesOk, HeldSlots, Recoverable, Recover, Has;
      id := 0;
      r := FindOrCreate(name, flags);
      if r == Done {
        id := AddHandle(Handle(names[name], name, Has(flags, READONLY), Has(flags, DELETEONCLOSE)));
      }
    }

    /** Opens a file and gives SQLite a handle to it. */
    method OpenFile(filename: Option<Name>, flags: Flags, candidates: seq<Name>) returns (r: Outcome, id: nat)
      requires Valid() && |candidates| == MAX_FILENAME_ATTEMPTS && OptionsOk(flags)
      modifies this`disk, this`trail, this`names, this`available, this`quarantined, this`needsRecovery, this`kept,
               this`handles, this`openCount, this`nextHandle
      ensures Valid() && Now().Held() == old(Now()).Held() && Now().Capacity() == old(Now()).Capacity()
      ensures old(CheckActive()) != Done ==> r == old(CheckActive())
      ensures r == Done ==>
                && id !in old(handles) && id in handles && handles == old(handles)[id := handles[id]]
                && var h := handles[id];
                   && (if filename.Some? then h.name == filename.value
                       else h.name in candidates && h.name !in old(names))
                   && h.readOnly == Has(flags, READONLY) && h.deleteOnClose == Has(flags, DELETEONCLOSE)
                   && h.name in names && h.slot == names[h.name] && MayOpen(h.name, flags)
                   && Count(h.slot) == Opens(old(openCount), h.slot) + 1
                   && if h.name in old(names) then !Has(flags, EXCLUSIVE) && Now() == old(Now())
                      else Has(flags, CREATE) && old(available) != []
                           && Now() == AfterCreate(old(Now()), h.name, flags, [])
      ensures old(CheckActive()) == Done && filename.Some? && MayOpen(filename.value, flags) ==>
                && (filename.value in old(names) ==> r == if Has(flags, EXCLUSIVE) then Failed(FileExists) else Done)
                && (r == Failed(FileNotFound) <==> filename.value !in old(names) && !Has(flags, CREATE))
      ensures old(CheckActive()) == Done ==>
                (r == Failed(NameCollision) <==> filename.None? && forall c :: c in candidates ==> c in old(names))
      ensures r == Done && handles[id].name !in old(names) ==>
                && names == old(names)[handles[id].name := handles[id].slot]
                && old(available) == available + [handles[id].slot]
                && handles[id].slot in disk
                && disk[handles[id].slot]
                   == Slot(Named(handles[id].name, flags), {Named(handles[id].name, flags)}, [], true)
      ensures r.Failed? ==> handles == old(handles) && openCount == old(openCount)
      ensures r.Failed? && r.error != Cleanup ==> Now() == old(Now())
      ensures r == Failed(Cleanup) ==> old(available) != [] && Now() == AfterSetAside(old(Now()), disk)
      ensures kept == (old(kept) && Recoverable(flags)) || kept == old(kept)
    {
      hide Valid, HeldSlots, Recoverable, Recover, Has, ValidFilename, MayOpen, AfterCreate, AfterSetAside, Opens;
      r, id := CheckActive(), 0;
      if r != Done {
        return;
      }
      var name;
      r, name := PickName(filename, flags, candidates);
      if r == Done {
        r, id := OpenNamed(name, flags);
      }
    }

    method AddHandle(h: Handle) returns (id: nat)
      requires Valid() && op == Idle && h.name in names && names[h.name] == h.slot
      modifies this`handles, this`openCount, this`nextHandle
      ensures Valid() && id !in old(handles) && handles == old(handles)[id := h]
      ensures Count(h.slot) == old(Count(h.slot)) + 1
    {
      hide SlotsOk, TrailOk, HandlesOk;
      CountsAnother(handles, openCount, nextHandle, names, h);
      id := nextHandle;
      FreshHandle(handles, openCount, nextHandle, names);
      handles := handles[id := h];
      openCount := openCount[h.slot := Count(h.slot) + 1];
      nextHandle := nextHandle + 1;
    }

    /** Writes through an open handle; a failed write can leave anything in the file. */
    method WriteFile(id: nat, offset: nat, data: seq<byte>) returns (r: Outcome)
      requires Valid() && id in handles && offset < TWO_64 && |data| < TWO_32
      modifies this`disk, this`trail
      ensures Valid() && OnlyChanges(old(disk), handles[id].slot, disk)
      ensures handles[id].slot in disk && handles[id].slot in old(disk)
      ensures r == Failed(ReadOnly) <==> handles[id].readOnly
      ensures r == Failed(OutOfRange) <==>
                !handles[id].readOnly && data != [] && offset + 4096 + |data| > MAX_SAFE_INTEGER
      ensures r.Failed? ==> r.error in {ReadOnly, OutOfRange, Io} && (r.error != Io ==> disk == old(disk))
      ensures var was, now := old(disk[handles[id].slot]), disk[handles[id].slot];
              && (r == Done && data != [] ==> now == was.(body := Patched(was.body, offset, data), durable := false))
              && (r == Done && data == [] ==> now == was)
              && (r == Failed(Io) ==> now == was.(body := now.body, durable := false))
    {
      hide SlotsOk, TrailOk, HandlesOk, OperationOk;
      var s := handles[id].slot;
      ghost var n := handles[id].name;
      InUse(Now(), handles, openCount, nextHandle, trail, began, exported, id);
      if handles[id].readOnly {
        return Failed(ReadOnly);
      }
      if data == [] {
        return Done;
      }
      if PhysicalOffset(offset, |data|) == None {
        return Failed(OutOfRange);
      }
      var ok: bool := *;
      var torn: seq<byte> := *;
      PutBody(s, if ok then Patched(disk[s].body, offset, data) else torn);
      return if ok then Done else Failed(Io);
    }

    /** Reads through an open handle. */
    method ReadFile(id: nat, offset: nat, length: nat) returns (r: Outcome, bytes: seq<byte>)
      requires Valid() && id in handles && offset < TWO_64 && length < TWO_32
      ensures handles[id].slot in disk
      ensures r == Done ==> bytes == Slice(disk[handles[id].slot].body, offset, length)
      ensures r == Failed(OutOfRange) <==> length > 0 && offset + 4096 + length > MAX_SAFE_INTEGER
      ensures r.Failed? ==> r.error in {OutOfRange, Io} && bytes == []
    {
      InUse(Now(), handles, openCount, nextHandle, trail, began, exported, id);
      if length == 0 {
        return Done, [];
      }
      if PhysicalOffset(offset, length) == None {
        return Failed(OutOfRange), [];
      }
      if * {
        return Failed(Io), [];
      }
      return Done, Slice(disk[handles[id].slot].body, offset, length);
    }

    /** Cuts a file, or extends it with zeros. */
    method TruncateFile(id: nat, size: nat) returns (r: Outcome)
      requires Valid() && id in handles && size < TWO_64
      modifies this`disk, this`trail
      ensures Valid() && OnlyChanges(old(disk), handles[id].slot, disk)
      ensures handles[id].slot in disk && handles[id].slot in old(disk)
      ensures r == Failed(ReadOnly) <==> handles[id].readOnly
      ensures r == Failed(OutOfRange) <==> !handles[id].readOnly && size + 4096 > MAX_SAFE_INTEGER
      ensures r.Failed? ==> r.error in {ReadOnly, OutOfRange, Io} && (r.error != Io ==> disk == old(disk))
      ensures var was, now := old(disk[handles[id].slot]), disk[handles[id].slot];
              && (r == Done ==>
                    && now == was.(body := now.body, durable := false) && |now.body| == size
                    && forall i :: 0 <= i < size ==> now.body[i] == if i < |was.body| then was.body[i] else 0)
              && (r == Failed(Io) ==> now == was.(body := now.body, durable := false))
    {
      hide SlotsOk, TrailOk, HandlesOk, OperationOk;
      var s := handles[id].slot;
      InUse(Now(), handles, openCount, nextHandle, trail, began, exported, id);
      if handles[id].readOnly {
        return Failed(ReadOnly);
      }
      if PhysicalOffset(size, 0) == None {
        return Failed(OutOfRange);
      }
      var ok: bool := *;
      var torn: seq<byte> := *;
      PutBody(s, if ok then Resized(disk[s].body, size) else torn);
      return if ok then Done else Failed(Io);
    }

    method PutBody(s: SlotId, body: seq<byte>)
      requires Valid() && s in disk && s !in Spare(available, op)
      requires op.Importing? || op.Exporting? ==> op.slot != s
      modifies this`disk, this`trail
      ensures Valid() && disk == old(disk)[s := old(disk[s]).(body := body, durable := false)]
    {
      hide SlotsOk, HandlesOk, OperationOk;
      var slot := disk[s].(body := body, durable := false);
      Rewritten(Now(), s, slot);
      OneMoreMoment(trail, disk, kept, s, slot);
      OperationGoesOn(Now(), openCount, trail, began, exported, s, slot);
      Put(s, slot);
    }

    method SyncFile(id: nat) returns (r: Outcome)
      requires Valid() && id in handles
      modifies this`disk, this`trail
      ensures Valid() && r in {Done, Failed(Io)}
      ensures disk == if r == Done then old(disk[handles[id].slot := Flushed(disk[handles[id].slot])]) else old(disk)
    {
      hide SlotsOk, HandlesOk, OperationOk;
      var s := handles[id].slot;
      InUse(Now(), handles, openCount, nextHandle, trail, began, exported, id);
      var flushed := Flushed(disk[s]);
      Rewritten(Now(), s, flushed);
      Rewritten(Now(), s, disk[s]);
      OneMoreMoment(trail, disk, kept, s, flushed);
      OneMoreMoment(trail, disk, kept, s, disk[s]);
      OperationGoesOn(Now(), openCount, trail, began, exported, s, flushed);
      OperationGoesOn(Now(), openCount, trail, began, exported, s, disk[s]);
      assert disk[s := disk[s]] == disk;
      var ok := Flush(s);
      return if ok then Done else Failed(Io);
    }

    /** Closes a handle, whatever happens, and removes a delete-on-close file with its last
        handle. Nothing but the name this handle was opened under can be removed. */
    method CloseFile(id: nat) returns (r: Outcome)
      requires Valid() && id in handles
      modifies this`disk, this`trail, this`handles, this`openCount, this`names, this`available, this`needsRecovery
      ensures Valid() && Now().Held() == old(Now()).Held() && Now().Capacity() == old(Now()).Capacity()
      ensures !old(handles[id].deleteOnClose) || r == Done ==> needsRecovery == old(needsRecovery)
      ensures handles == old(handles) - {id} && Count(old(handles[id].slot)) == old(Count(handles[id].slot)) - 1
      ensures OnlyChanges(old(disk), old(handles[id].slot), disk) && quarantined == old(quarantined)
      ensures (names == old(names) && available == old(available)) ||
              (names == old(names) - {old(handles[id].name)} && available == old(available) + [old(handles[id].slot)]
               && old(handles[id].deleteOnClose) && old(CheckActive()) == Done && old(Count(handles[id].slot)) == 1)
      ensures r == Done && old(handles[id].deleteOnClose) ==> old(handles[id].name) !in names
      ensures !old(handles[id].deleteOnClose) ==> names == old(names) && (r == Done || r == Failed(Io))
      ensures old(handles[id].slot in disk)
      ensures !old(handles[id].deleteOnClose) ==>
                disk == if r == Done then old(disk[handles[id].slot := Flushed(disk[handles[id].slot])]) else old(disk)
      ensures if old(handles[id].name) !in names then disk == old(disk)[old(handles[id].slot) := CLEAN]
              else DiskPoint(old(disk), old(handles[id].slot), Blank, disk)
    {
      hide Valid, HeldSlots, DiskPoint, OnlyChanges, Flushed, Opens;
      var h := handles[id];
      r := DropHandle(id);
      if h.deleteOnClose {
        var deleted := DropName(h, old(disk));
        if r == Done {
          r := deleted;
        }
      }
    }

    /** The deletion that a close ends with if the file was opened for it. */
    method DropName(h: Handle, ghost before: Disk) returns (r: Outcome)
      requires Valid() && h.name in names && names[h.name] == h.slot
      requires h.slot in before && WellFormed(before) && OnlyChanges(before, h.slot, disk)
      requires DiskPoint(before, h.slot, Blank, disk)
      requires disk == before || disk == before[h.slot := Flushed(before[h.slot])]
      modifies this`disk, this`trail, this`names, this`available, this`needsRecovery
      ensures Valid() && Now().Held() == old(Now()).Held() && Now().Capacity() == old(Now()).Capacity()
      ensures OnlyChanges(before, h.slot, disk) && (r == Done ==> h.name !in names)
      ensures (names == old(names) && available == old(available)) ||
              (names == old(names) - {h.name} && available == old(available) + [h.slot]
               && old(CheckActive()) == Done && old(Count(h.slot)) == 0)
      ensures if h.name !in names then disk == before[h.slot := CLEAN] else DiskPoint(before, h.slot, Blank, disk)
      ensures r == Done ==> needsRecovery == old(needsRecovery)
    {
      hide SlotsOk, TrailOk, HandlesOk, OperationOk, HeldSlots, DiskPoint, OnlyChanges;
      ghost var dropped := disk;
      var found;
      r, found := DeleteFile(h.name);
      ChangesTwice(before, h.slot, dropped, disk);
      if r == Failed(Io) && dropped != before {
        PointAfterFlush(before, h.slot, Blank, disk);
      }
    }

    /** The flush and the drop that every close begins with. */
    method DropHandle(id: nat) returns (r: Outcome)
      requires Valid() && id in handles
      modifies this`disk, this`trail, this`handles, this`openCount
      ensures Valid() && r in {Done, Failed(Io)} && OnlyChanges(old(disk), old(handles[id].slot), disk)
      ensures handles == old(handles) - {id} && Count(old(handles[id].slot)) == old(Count(handles[id].slot)) - 1
      ensures old(handles[id].name) in names && names[old(handles[id].name)] == old(handles[id].slot)
      ensures old(handles[id].slot in disk)
      ensures disk == if r == Done then old(disk[handles[id].slot := Flushed(disk[handles[id].slot])]) else old(disk)
      ensures WellFormed(old(disk)) && DiskPoint(old(disk), old(handles[id].slot), Blank, disk)
    {
      hide SlotsOk, TrailOk, HandlesOk, OperationOk, HeldSlots, DiskPoint;
      var h := handles[id];
      LastMoment(trail, disk, kept);
      InUse(Now(), handles, openCount, nextHandle, trail, began, exported, id);
      NoPointYet(disk, h.slot, Blank);
      FlushPoint(disk, h.slot, Blank, disk);
      r := SyncFile(id);
      CountsOneLess(handles, openCount, nextHandle, names, id);
      OperationElsewhere(Now(), openCount, trail, began, exported, h.slot, Count(h.slot) - 1);
      handles := handles - {id};
      openCount := openCount[h.slot := Count(h.slot) - 1];
    }

    // Imports. The target of `create_import` holds the guard until it is finished with.

    /** Reserves the next unassigned slot for a new database. */
    method CreateImport(name: Name, size: nat) returns (r: Outcome)
      requires Valid() && size < TWO_64
      modifies this`op, this`began
      ensures Valid()
      ensures old(CheckActive()) != Done ==> r == old(CheckActive())
      ensures old(CheckActive()) == Done ==>
                && (r == Failed(InvalidFilename) <==> !ValidFilename(name))
                && (r == Failed(OutOfRange) <==> ValidFilename(name) && PhysicalOffset(size, 0) == None)
                && (r == Failed(FileExists) ==> name in names)
                && (r == Failed(RecoveryRequired) ==> name + JOURNAL in names || name + WAL_SUFFIX in names)
                && (r == Failed(NoCapacity) ==> available == [])
                && (r.Failed? ==> r.error in {InvalidFilename, OutOfRange, FileExists, RecoveryRequired, OutOfMemory,
                                              NoCapacity})
      ensures r == Done ==>
                && ValidFilename(name) && name !in names && name + JOURNAL !in names && name + WAL_SUFFIX !in names
                && available != [] && op == Importing(available[|available| - 1], name) && disk[op.slot] == CLEAN
      ensures r.Failed? ==> op == old(op)
    {
      hide SlotsOk, TrailOk, HandlesOk, ValidFilename, Storable, Absent;
      r := CheckActive();
      if r != Done {
        return;
      }
      if !ValidFilename(name) {
        return Failed(InvalidFilename);
      }
      if PhysicalOffset(size, 0) == None {
        return Failed(OutOfRange);
      }
      if name in names {
        return Failed(FileExists);
      }
      if name + JOURNAL in names || name + WAL_SUFFIX in names {
        return Failed(RecoveryRequired);
      }
      if * {
        return Failed(OutOfMemory);
      }
      if available == [] {
        return Failed(NoCapacity);
      }
      Reserved(Now(), openCount, trail, exported, name);
      op := Importing(available[|available| - 1], name);
      began := |trail|;
    }

    /** Writes part of the image; a failed write can leave anything in the slot. */
    method ImportWrite(offset: nat, data: seq<byte>) returns (r: Outcome)
      requires Valid() && op.Importing? && offset < TWO_64 && |data| < TWO_32
      modifies this`disk, this`trail
      ensures Valid() && OnlyChanges(old(disk), op.slot, disk) && op.slot in disk && op.slot in old(disk)
      ensures var was, now := old(disk[op.slot]), disk[op.slot];
              && (r == Done ==> now == was.(body := Patched(was.body, offset, data), durable := false))
              && (r == Failed(Io) ==> now == was.(body := now.body, durable := false))
      ensures r == Failed(OutOfRange) <==> offset + 4096 + |data| > MAX_SAFE_INTEGER
      ensures r.Failed? ==> r.error in {OutOfRange, Io} && (r.error == OutOfRange ==> disk == old(disk))
    {
      hide SlotsOk, TrailOk, HandlesOk, OperationOk, WholeOrAbsent;
      LastMoment(trail, disk, kept);
      ReservedSlot(Now(), openCount, trail, began, exported);
      if PhysicalOffset(offset, |data|) == None {
        return Failed(OutOfRange);
      }
      var ok: bool := *;
      var torn: seq<byte> := *;
      var body := if ok then Patched(disk[op.slot].body, offset, data) else torn;
      var slot := disk[op.slot].(body := body, durable := false);
      Rewritten(Now(), op.slot, slot);
      OneMoreMoment(trail, disk, kept, op.slot, slot);
      ImportContinues(Now(), openCount, trail, began, exported, slot);
      Put(op.slot, slot);
      return if ok then Done else Failed(Io);
    }

    /** The I/O of a commit: content first, then the name. */
    method PublishImage(s: SlotId, name: Name, ghost from: nat) returns (r: Outcome)
      requires TrailOk(trail, disk, kept) && s in disk && disk[s].header == Blank && disk[s].may == {Blank}
      requires Absent(disk, name) && Storable(name) && WholeOrAbsent(trail, from, s, name, disk[s].body)
      modifies this`disk, this`trail
      ensures TrailOk(trail, disk, kept) && OnlyChanges(old(disk), s, disk) && s in disk && !disk[s].header.Short?
      ensures WholeOrAbsent(trail, from, s, name, old(disk[s].body)) && AllOrNothing(disk, s, name, old(disk[s].body))
      ensures r == Done ==>
                disk == old(disk)[s := Slot(Named(name, MAIN_DB), {Named(name, MAIN_DB)}, old(disk[s].body), true)]
      ensures r.Failed? ==> r == Failed(Io)
    {
      hide TrailOk, WholeOrAbsent, DiskPoint, Absent, Storable, AllOrNothing, Recoverable, Recover, WellFormed, MayName;
      LastMoment(trail, disk, kept);
      ghost var image := disk[s].body;
      var ok := Flush(s);
      assert disk == old(disk)[s := disk[s]];
      OneMoreMoment(old(trail), old(disk), kept, s, disk[s]);
      SameHeadersQuiet(old(disk), s, disk[s]);
      NoNewNamesAbsent(old(disk), disk, name);
      AbsentIsWhole(disk, s, name, image);
      FlushedMoment(old(trail), from, s, name, image, disk);
      if !ok {
        return Failed(Io);
      }
      ghost var flushed, sofar := disk, trail;
      MainDbRecoverable();
      r := Publish(s, Named(name, MAIN_DB));
      WholeLonger(sofar, trail, from, s, name, image, flushed, Named(name, MAIN_DB));
      PublishAllOrNothing(flushed, s, Named(name, MAIN_DB), disk, name);
    }

    /** Ends an import without its name: the slot is emptied where it is, or set aside. */
    method CleanUp(ghost from: nat, ghost image: seq<byte>) returns (ok: bool)
      requires TrailOk(trail, disk, kept) && op.Importing? && op.slot in disk && !disk[op.slot].header.Short?
      requires AllOrNothing(disk, op.slot, op.name, image) && WholeOrAbsent(trail, from, op.slot, op.name, image)
      requires available != [] && available[|available| - 1] == op.slot
      modifies this`disk, this`trail, this`available, this`quarantined, this`needsRecovery
      ensures TrailOk(trail, disk, kept) && OnlyChanges(old(disk), op.slot, disk)
      ensures op.slot in disk && !disk[op.slot].header.Short?
      ensures WholeOrAbsent(trail, from, op.slot, op.name, image) && Quiet(old(trail), old(disk), trail, disk)
      ensures if ok then
                && disk == old(disk)[op.slot := CLEAN] && available == old(available)
                && quarantined == old(quarantined) && needsRecovery == old(needsRecovery)
              else
                && available == old(available[..|available| - 1]) && quarantined == old(quarantined) + [op.slot]
                && needsRecovery
    {
      hide TrailOk, WholeOrAbsent, DiskPoint, AllOrNothing, Quiet;
      ok := Release(op.slot);
      WholeLonger(old(trail), trail, from, op.slot, op.name, image, old(disk), Blank);
      if !ok {
        var file := available[|available| - 1];
        available := available[..|available| - 1];
        quarantined := quarantined + [file];
        needsRecovery := true;
      }
    }

    /** Publishes what was written under the import's name. Exactly the reserved slot
        leaves the unassigned ones. At every moment since the import began, a crash
        leaves the name unknown or bound to the complete durable image. */
    method Commit() returns (r: Outcome)
      requires Valid() && op.Importing?
      modifies this`op, this`disk, this`trail, this`names, this`available, this`quarantined, this`needsRecovery
      ensures Valid() && op == Idle && old(op.slot in disk)
      ensures Now().Held() == old(Now()).Held() && Now().Capacity() == old(Now()).Capacity()
      ensures old(available) != [] && old(op.slot) == old(available[|available| - 1])
      ensures WholeOrAbsent(trail, old(began), old(op.slot), old(op.name), old(disk[op.slot].body))
      ensures match r
              case Done =>
                && Now() == AfterCreate(old(Now()), old(op.name), MAIN_DB, old(disk[op.slot].body))
                && names == old(names)[old(op.name) := old(op.slot)] && old(available) == available + [old(op.slot)]
                && disk == old(disk[op.slot := Slot(Named(op.name, 0x100), {Named(op.name, 0x100)},
                                                    disk[op.slot].body, true)])
              case Failed(Cleanup) =>
                Now() == AfterSetAside(old(Now()), disk) && OnlyChanges(old(disk), old(op.slot), disk)
              case Failed(e) => e == Io && Now() == old(Now()).(op := Idle, disk := old(disk)[old(op.slot) := CLEAN])
    {
      hide SlotsOk, TrailOk, HandlesOk, OperationOk, WholeOrAbsent, NeverNamed, Quiet, DiskPoint, Absent, HeldSlots,
        OnlyChanges, Storable, AllOrNothing, Has, Recover, AfterCreate, AfterSetAside;
      LastMoment(trail, disk, kept);
      ReservedSlot(Now(), openCount, trail, began, exported);
      ghost var image := disk[op.slot].body;
      AfterCreateIs(Now(), op.name, MAIN_DB, image);
      r := PublishImage(op.slot, op.name, began);
      if r.Failed? {
        var cleaned := GiveUp(image, old(Now()));
        return if cleaned then Failed(Io) else Failed(Cleanup);
      }
      Bind(image, old(Now()));
    }

    /** The in-memory half of a commit. */
    method Bind(ghost image: seq<byte>, ghost before: View)
      requires TrailOk(trail, disk, kept) && SlotsOk(before) && before.Healthy()
      requires HandlesOk(handles, openCount, nextHandle, names)
      requires op.Importing? && op.name !in names && Now() == before.(disk := disk)
      requires available != [] && available[|available| - 1] == op.slot && op.slot in before.disk
      requires disk == before.disk[op.slot := Slot(Named(op.name, MAIN_DB), {Named(op.name, MAIN_DB)}, image, true)]
      modifies this`op, this`names, this`available
      ensures Valid() && op == Idle && Now() == AfterCreate(before, old(op.name), MAIN_DB, image)
      ensures Now().Held() == before.Held() && Now().Capacity() == before.Capacity()
    {
      hide SlotsOk, TrailOk, HandlesOk, OperationOk, HeldSlots;
      Created(before, op.name, MAIN_DB, image);
      NewName(handles, openCount, nextHandle, names, op.name, op.slot);
      var file := available[|available| - 1];
      available := available[..|available| - 1];
      names := names[op.name := file];
      op := Idle;
      NothingHeld(Now(), openCount, trail, began, exported);
    }

    /** What remains of an import that did not commit. */
    method GiveUp(ghost image: seq<byte>, ghost before: View) returns (cleaned: bool)
      requires TrailOk(trail, disk, kept) && SlotsOk(before) && HandlesOk(handles, openCount, nextHandle, names)
      requires op.Importing? && Now() == before.(disk := disk) && before.quarantined == [] && !before.needsRecovery
      requires op.slot in disk && op.slot in before.disk && OnlyChanges(before.disk, op.slot, disk)
      requires !disk[op.slot].header.Short?
      requires AllOrNothing(disk, op.slot, op.name, image) && WholeOrAbsent(trail, began, op.slot, op.name, image)
      requires available != [] && available[|available| - 1] == op.slot
      modifies this`op, this`disk, this`trail, this`available, this`quarantined, this`needsRecovery
      ensures Valid() && op == Idle && Now().Held() == before.Held() && Now().Capacity() == before.Capacity()
      ensures WholeOrAbsent(trail, began, old(op.slot), old(op.name), image)
      ensures Quiet(old(trail), old(disk), trail, disk)
      ensures if cleaned then Now() == before.(op := Idle, disk := before.disk[old(op.slot) := CLEAN])
              else Now() == AfterSetAside(before, disk) && OnlyChanges(before.disk, old(op.slot), disk)
    {
      hide SlotsOk, TrailOk, HandlesOk, OperationOk, WholeOrAbsent, HeldSlots, OnlyChanges, AllOrNothing;
      cleaned := CleanUp(began, image);
      ChangesTwice(before.disk, op.slot, old(disk), disk);
      PutAside(before, disk);
      GivenBack(before);
      SameAfterClean(before.disk, op.slot, old(disk));
      op := Idle;
      NothingHeld(Now(), openCount, trail, began, exported);
    }

    /** Aborting, or dropping the target without finishing: the name never appears. */
    method Abort() returns (r: Outcome)
      requires Valid() && op.Importing?
      modifies this`op, this`disk, this`trail, this`available, this`quarantined, this`needsRecovery
      ensures Valid() && op == Idle && Now().Held() == old(Now()).Held() && Now().Capacity() == old(Now()).Capacity()
      ensures NeverNamed(trail, old(began), old(op.name))
      ensures match r
              case Done => Now() == old(Now().(op := Idle, disk := disk[op.slot := CLEAN]))
              case Failed(_) =>
                && old(available) != [] && Now() == AfterSetAside(old(Now()), disk)
                && OnlyChanges(old(disk), old(op.slot), disk)
    {
      hide SlotsOk, TrailOk, HandlesOk, OperationOk, WholeOrAbsent, NeverNamed, Quiet, HeldSlots, AllOrNothing, MayName;
      LastMoment(trail, disk, kept);
      ReservedSlot(Now(), openCount, trail, began, exported);
      AbsentIsWhole(disk, op.slot, op.name, disk[op.slot].body);
      ghost var name := op.name;
      var cleaned := GiveUp(disk[op.slot].body, old(Now()));
      StillNeverNamed(old(trail), old(disk), trail, disk, began, name);
      return if cleaned then Done else Failed(Io);
    }

    // Exports. The source of `open_export` holds the guard until it is dropped.

    /** Opens a database for reading as a whole. It must be closed, and so must its
        journals be empty; what is then exported is one unchanging image. */
    method OpenExport(name: Name) returns (r: Outcome)
      requires Valid()
      modifies this`op, this`exported
      ensures Valid()
      ensures old(CheckActive()) != Done ==> r == old(CheckActive())
      ensures old(CheckActive()) == Done ==>
                && (r == Failed(InvalidFilename) <==> !ValidFilename(name))
                && (r == Failed(FileNotFound) <==> ValidFilename(name) && name !in names)
                && (r == Failed(FileInUse) <==> ValidFilename(name) && name in names && Count(names[name]) != 0)
                && (r == Failed(RecoveryRequired) ==> Occupied(name + JOURNAL) || Occupied(name + WAL_SUFFIX))
      ensures r == Done ==>
                && name in names && Count(names[name]) == 0 && names[name] in disk
                && op == Exporting(names[name], name, |disk[names[name]].body|) && exported == disk[names[name]].body
                && (forall sidecar :: sidecar in {name + JOURNAL, name + WAL_SUFFIX} && sidecar in names ==>
                      names[sidecar] in disk && disk[names[sidecar]].body == [])
      ensures r.Failed? ==> op == old(op)
    {
      hide SlotsOk, TrailOk, HandlesOk, ValidFilename;
      r := CheckActive();
      if r != Done {
        return;
      }
      if !ValidFilename(name) {
        return Failed(InvalidFilename);
      }
      if name !in names {
        return Failed(FileNotFound);
      }
      if Count(names[name]) != 0 {
        return Failed(FileInUse);
      }
      r := SidecarEmpty(name + JOURNAL);
      if r != Done {
        return;
      }
      r := SidecarEmpty(name + WAL_SUFFIX);
      if r != Done {
        return;
      }
      if * {
        return Failed(Io);
      }
      Reading(Now(), openCount, trail, began, name);
      exported := disk[names[name]].body;
      op := Exporting(names[name], name, |disk[names[name]].body|);
    }

    /** A file of that name with content. */
    predicate Occupied(name: Name)
      reads this
    {
      name in names && names[name] in disk && disk[names[name]].body != []
    }

    method SidecarEmpty(name: Name) returns (r: Outcome)
      requires Valid()
      ensures r == Failed(RecoveryRequired) ==> Occupied(name)
      ensures r == Done ==> name in names ==> names[name] in disk && disk[names[name]].body == []
      ensures r.Failed? ==> r.error in {RecoveryRequired, Io}
    {
      if name in names {
        InPlaceSlot(Now(), name);
        if * {
          return Failed(Io);
        }
        if disk[names[name]].body != [] {
          return Failed(RecoveryRequired);
        }
      }
      return Done;
    }

    /** Reads part of the image that was there when the export was opened. */
    method ExportRead(offset: nat, length: nat) returns (r: Outcome, bytes: seq<byte>)
      requires Valid() && op.Exporting? && offset < TWO_64 && length < TWO_32
      ensures r == Done ==> bytes == Slice(exported, offset, length)
      ensures r == Failed(OutOfRange) <==> PhysicalOffset(offset, length) == None
    {
      ExportedSlot(Now(), openCount, trail, began, exported);
      if PhysicalOffset(offset, length) == None {
        return Failed(OutOfRange), [];
      }
      if * {
        return Failed(Io), [];
      }
      return Done, Slice(disk[op.slot].body, offset, length);
    }

    /** Dropping an export, or any suspended operation but an import: the guard is free
        and nothing else changes. Slots that an unfinished `add_capacity` initialised are
        not held; they stay on disk. */
    method LetGuardGo()
      requires Valid() && !op.Importing?
      modifies this`op
      ensures Valid() && op == Idle
    {
      hide SlotsOk, TrailOk, HandlesOk, OperationOk;
      Released(Now());
      op := Idle;
      NothingHeld(Now(), openCount, trail, began, exported);
    }

    // Emptying, pausing and removing the pool.

    /** Removes every name. If it cannot finish it can be called again; no slot is lost
        either way, and at every moment a crash leaves each name with its content, or not
        at all. */
    method Clear() returns (r: Outcome)
      requires Valid()
      modifies this`disk, this`trail, this`names, this`available, this`quarantined, this`needsRecovery, this`settled
      ensures Valid() && Now().Held() == old(Now()).Held() && Now().Capacity() == old(Now()).Capacity()
      ensures old(CheckState()) != Done ==> r == old(CheckState())
      ensures old(CheckState()) == Done ==>
                && (r == Failed(Busy) <==> old(op) != Idle)
                && (r == Failed(FilesInUse) <==> old(op) == Idle && !old(Closed()))
                && (r.Failed? ==> r.error in {Busy, FilesInUse, Io})
      ensures r == Done ==>
                && names == map[] && quarantined == [] && !needsRecovery
                && forall s :: s in old(Now()).Held() ==> s in disk && disk[s] == Slot(Blank, {Blank}, [], true)
      ensures r == Failed(Io) ==> needsRecovery
      ensures forall n :: n in names ==> n in old(names) && names[n] == old(names[n])
      ensures Emptying(old(disk), disk) && EmptyingSince(old(disk), trail, |old(trail)|)
      ensures settled == (r == Done || old(settled))
      ensures r.Failed? && r.error != Io ==> Now() == old(Now()) && trail == old(trail)
    {
      hide SlotsOk, TrailOk, HandlesOk, HeldSlots, Quiet, DiskPoint, Emptying;
      NothingEmptied(disk, trail);
      r := CheckState();
      if r != Done {
        return;
      }
      if op != Idle {
        return Failed(Busy);
      }
      if !Closed() {
        return Failed(FilesInUse);
      }
      r := ClearNames();
      if r != Done {
        return;
      }
      r := ClearQuarantine(old(disk), |old(trail)|);
      if r != Done {
        return;
      }
      AllClear(Now());
      ClearHeld(Now());
      needsRecovery := false;
      settled := true;
    }

    method ClearNames() returns (r: Outcome)
      requires Valid() && state == Active && op == Idle && Closed()
      modifies this`disk, this`trail, this`names, this`available, this`needsRecovery
      ensures Valid() && Now().Held() == old(Now()).Held() && Now().Capacity() == old(Now()).Capacity()
      ensures needsRecovery && (r == Done ==> names == map[]) && (r.Failed? ==> r == Failed(Io))
      ensures forall n :: n in names ==> n in old(names) && names[n] == old(names[n])
      ensures Emptying(old(disk), disk) && EmptyingSince(old(disk), trail, |old(trail)|)
    {
      hide SlotsOk, TrailOk, HandlesOk, HeldSlots, Quiet, DiskPoint, Emptying;
      NothingEmptied(disk, trail);
      Suspected(Now());
      needsRecovery := true;
      var left := names.Keys;
      while left != {}
        invariant Valid() && needsRecovery && left == names.Keys && Closed()
        invariant Now().Held() == old(Now()).Held() && Now().Capacity() == old(Now()).Capacity()
        invariant forall n :: n in names ==> n in old(names) && names[n] == old(names[n])
        invariant Emptying(old(disk), disk) && EmptyingSince(old(disk), trail, |old(trail)|)
      {
        var name :| name in left;
        left := left - {name};
        r := ClearName(name, old(disk), |old(trail)|);
        if r != Done {
          return;
        }
      }
      return Done;
    }

    method ClearName(name: Name, ghost before: Disk, ghost from: nat) returns (r: Outcome)
      requires Valid() && op == Idle && needsRecovery && name in names && Closed()
      requires Emptying(before, disk) && EmptyingSince(before, trail, from)
      modifies this`disk, this`trail, this`names, this`available
      ensures Valid() && Closed() && Now().Held() == old(Now()).Held() && Now().Capacity() == old(Now()).Capacity()
      ensures if r == Done then names == old(names) - {name} else r == Failed(Io) && names == old(names)
      ensures Emptying(before, disk) && EmptyingSince(before, trail, from)
    {
      hide SlotsOk, TrailOk, HandlesOk, HeldSlots, DiskPoint, Emptying, EmptyingSince;
      var ok := GiveUpName(name);
      EmptyingOn(before, from, old(trail), old(disk), old(names[name]), trail, disk);
      NothingHeld(Now(), openCount, trail, began, exported);
      return if ok then Done else Failed(Io);
    }

    method ClearQuarantine(ghost before: Disk, ghost from: nat) returns (r: Outcome)
      requires Valid() && state == Active && op == Idle && needsRecovery
      requires Emptying(before, disk) && EmptyingSince(before, trail, from)
      modifies this`disk, this`trail, this`available, this`quarantined
      ensures Valid() && Now().Held() == old(Now()).Held() && Now().Capacity() == old(Now()).Capacity()
      ensures (r == Done ==> quarantined == []) && (r.Failed? ==> r == Failed(Io))
      ensures Emptying(before, disk) && EmptyingSince(before, trail, from)
    {
      hide SlotsOk, TrailOk, HandlesOk, HeldSlots, Quiet, DiskPoint, Emptying, EmptyingSince;
      while quarantined != []
        invariant Valid() && Emptying(before, disk) && EmptyingSince(before, trail, from)
        invariant Now().Held() == old(Now()).Held() && Now().Capacity() == old(Now()).Capacity()
        decreases |quarantined|
      {
        ghost var view, sofar := Now(), trail;
        LastSetAside(view);
        var file := quarantined[|quarantined| - 1];
        var ok := Release(file);
        QuietPrefix(sofar, view.disk, trail, disk);
        EmptyingOn(before, from, sofar, view.disk, file, trail, disk);
        if !ok {
          Doubted(view, file, disk);
          return Failed(Io);
        }
        Readmitted(view);
        quarantined := quarantined[..|quarantined| - 1];
        available := available + [file];
      }
      return Done;
    }

    /** Releases every slot. Open files and running operations make it fail without
        effect; nothing on disk changes. */
    method Pause() returns (r: Outcome)
      requires Valid()
      modifies this`state, this`op, this`names, this`available, this`quarantined, this`settled
      ensures Valid() && op == old(op)
      ensures settled == if r == Done then StillSettled(old(Now())) else old(settled)
      ensures r == Failed(Uninstalled) <==> old(state) == Removed
      ensures r == Failed(Busy) <==> old(state) != Removed && old(op) != Idle
      ensures r == Failed(FilesInUse) <==> old(state) == Active && old(op) == Idle && !old(Closed())
      ensures r.Failed? ==> r.error in {Uninstalled, Busy, FilesInUse, NameConflict}
      ensures r == Done ==> state == Paused && handles == map[]
      ensures r.Failed? ==> Now() == old(Now())
    {
      hide SlotsOk, TrailOk, HandlesOk;
      if state == Removed {
        return Failed(Uninstalled);
      }
      if op != Idle {
        return Failed(Busy);
      }
      if state == Paused {
        EmptyPool(Now(), handles, openCount, nextHandle);
        return Done;
      }
      if !Closed() {
        return Failed(FilesInUse);
      }
      if * {
        return Failed(NameConflict);
      }
      ReleaseAll(Paused);
      return Done;
    }

    method ReleaseAll(phase: PoolPhase)
      requires Valid() && op == Idle && Closed() && phase != Active
      modifies this`state, this`op, this`names, this`available, this`quarantined, this`settled
      ensures Valid() && op == Idle && state == phase && handles == map[] && settled == StillSettled(old(Now()))
    {
      hide SlotsOk, TrailOk, HandlesOk, OperationOk, StillSettled, AllClosed;
      LastMoment(trail, disk, kept);
      LetGo(Now(), phase);
      settled := StillSettled(Now());
      NoHandles(handles, openCount, nextHandle, names);
      available, names, quarantined := [], map[], [];
      state := phase;
      op := Idle;
      NothingHeld(Now(), openCount, trail, began, exported);
    }

    /** Removes the pool for good; the files stay on disk. */
    method Uninstall() returns (r: Outcome)
      requires Valid()
      modifies this`state, this`op, this`names, this`available, this`quarantined, this`settled
      ensures Valid() && op == old(op)
      ensures settled == if r == Done then StillSettled(old(Now())) else old(settled)
      ensures r == Failed(Busy) <==> old(state) != Removed && old(op) != Idle
      ensures r == Failed(FilesInUse) <==> old(state) != Removed && old(op) == Idle && !old(Closed())
      ensures r == Done ==> state == Removed && (old(state) != Removed ==> handles == map[])
      ensures r.Failed? ==> Now() == old(Now())
    {
      hide SlotsOk, TrailOk, HandlesOk;
      if state == Removed {
        return Done;
      }
      if op != Idle {
        return Failed(Busy);
      }
      if !Closed() {
        return Failed(FilesInUse);
      }
      if * {
        return Failed(NameConflict);
      }
      ReleaseAll(Removed);
      return Done;
    }

    // Capacity. Between any two of these steps open files can be used and closed, and the
    // caller can give up, which is LetGuardGo.

    method AddBegin(n: nat) returns (r: Outcome)
      requires Valid()
      modifies this`op
      ensures Valid()
      ensures old(CheckActive()) != Done ==> r == old(CheckActive())
      ensures r == Done ==> op == Adding(n, 0, [])
      ensures r.Failed? ==> op == old(op) && (old(CheckActive()) == Done ==> r == Failed(OutOfMemory))
    {
      hide SlotsOk, TrailOk, HandlesOk;
      r := CheckActive();
      if r != Done {
        return;
      }
      if * {
        return Failed(OutOfMemory);
      }
      CanAdd(Now(), n);
      op := Adding(n, 0, []);
    }

    /** I/O on a slot the pool does not hold. */
    method PutUnheld(s: SlotId, slot: Slot)
      requires Valid() && NoTransfer(op) && s !in AllHeld(Now()) && slot.header in slot.may
      requires forall h :: h in slot.may && h.Named? ==> s in disk && h in disk[s].may
      requires state != Active && settled ==> Settled(slot)
      modifies this`disk, this`trail
      ensures Valid() && disk == old(disk)[s := slot] && AllHeld(Now()) == AllHeld(old(Now()))
    {
      hide SlotsOk, TrailOk, HandlesOk, OperationOk, AllHeld;
      LastMoment(trail, disk, kept);
      PausedSettled(Now());
      UnheldMoment(Now(), openCount, trail, began, exported, kept, disk[s := slot]);
      Put(s, slot);
      SameHeld(old(Now()), disk);
    }

    method RemoveEntry(s: SlotId) returns (ok: bool)
      requires Valid() && NoTransfer(op) && s !in AllHeld(Now())
      modifies this`disk, this`trail
      ensures Valid() && disk == if ok then old(disk) - {s} else disk
      ensures disk == old(disk) || disk == old(disk) - {s}
    {
      hide SlotsOk, TrailOk, HandlesOk, OperationOk, AllHeld;
      LastMoment(trail, disk, kept);
      PausedSettled(Now());
      ok := *;
      var landed: bool := *;
      var rest := if ok || landed then disk - {s} else disk;
      UnheldMoment(Now(), openCount, trail, began, exported, kept, rest);
      disk := rest;
      trail := trail + [disk];
    }

    method FlushUnheld(s: SlotId) returns (ok: bool)
      requires Valid() && NoTransfer(op) && s !in AllHeld(Now()) && s in disk
      modifies this`disk, this`trail
      ensures Valid()
      ensures disk == if ok then old(disk[s := Flushed(disk[s])]) else old(disk)
    {
      hide SlotsOk, HandlesOk, OperationOk, AllHeld;
      PausedSettled(Now());
      ok := *;
      var was := disk[s];
      PutUnheld(s, if ok then Flushed(was) else was);
      assert old(disk)[s := was] == old(disk);
    }

    /** Extends a slot whose initialisation was cut short to a complete empty header. */
    method Initialize(s: SlotId) returns (ok: bool)
      requires Valid() && NoTransfer(op) && s !in AllHeld(Now()) && s in disk && disk[s].header.Short?
      modifies this`disk, this`trail
      ensures Valid() && OnlyChanges(old(disk), s, disk)
      ensures ok ==> disk == old(disk)[s := CLEAN]
    {
      hide SlotsOk, HandlesOk, OperationOk, AllHeld, TrailOk;
      PausedSettled(Now());
      ok := *;
      var landed: bool := *;
      var size: nat := *;
      var h := if ok || landed || size >= SECTOR_SIZE then Blank else Short(size);
      PutUnheld(s, Slot(h, disk[s].may + {h}, [], false));
      if ok {
        ok := FlushUnheld(s);
      }
    }

    method Attempted() returns (r: Outcome)
      requires Valid() && op.Adding?
      modifies this`op
      ensures Valid()
      ensures r == Done ==> op == old(op).(attempts := old(op).attempts + 1) && op.attempts < MAX_FILENAME_ATTEMPTS
      ensures r.Failed? ==> r == Failed(NameCollision) && op == Idle && old(op).attempts + 1 >= 16
    {
      hide SlotsOk, TrailOk, HandlesOk;
      if op.attempts + 1 >= MAX_FILENAME_ATTEMPTS {
        LetGuardGo();
        return Failed(NameCollision);
      }
      op := op.(attempts := op.attempts + 1);
      AnotherAttempt(old(Now()), op);
      return Done;
    }

    /** One attempt to add the slot with this random name. A name that is taken, in the
        pool or on disk, costs an attempt and touches nothing; the 16th is the last. */
    method AddSlot(s: SlotId) returns (r: Outcome)
      requires Valid() && op.Adding? && op.left > 0
      modifies this`op, this`disk, this`trail
      ensures Valid()
      ensures forall t :: t in old(disk) && t != s ==> t in disk && disk[t] == old(disk)[t]
      ensures r.Failed? ==> op == Idle && r.error in {NameCollision, Io, Cleanup}
      ensures r == Done ==>
                || (op == old(op).(attempts := old(op).attempts + 1) && op.attempts < 16
                    && NameTaken(old(Now()), s) && disk == old(disk))
                || (op == Adding(old(op).left - 1, 0, old(op).added + [s]) && s !in AllHeld(old(Now()))
                    && disk == old(disk)[s := CLEAN])
      ensures r == Failed(NameCollision) ==>
                NameTaken(old(Now()), s) && disk == old(disk) && old(op).attempts + 1 >= 16
      ensures s in old(disk) && old(disk[s].header) != Short(0) ==> disk == old(disk)
    {
      hide SlotsOk, TrailOk, HandlesOk, OperationOk, HeldSlots, AllHeld;
      AddingHealthy(Now(), openCount, trail, began, exported);
      if s in available || s in names.Values || s in op.added {
        r := Attempted();
        return;
      }
      NotHeld(Now(), s);
      if * {
        LetGuardGo();
        return Failed(Io);
      }
      if s !in disk {
        PutUnheld(s, Slot(Short(0), {Short(0)}, [], true));
      }
      if * {
        LetGuardGo();
        return Failed(Io);
      }
      if disk[s].header != Short(0) {
        r := Attempted();
        return;
      }
      r := InitializeSlot(s);
    }

    /** The end of a successful attempt: the slot is initialised or removed again. */
    method InitializeSlot(s: SlotId) returns (r: Outcome)
      requires Valid() && op.Adding? && op.left > 0 && s in disk && disk[s].header == Short(0) && s !in AllHeld(Now())
      requires s !in available && s !in names.Values && s !in op.added
      modifies this`op, this`disk, this`trail
      ensures Valid()
      ensures if r == Done then op == Adding(old(op).left - 1, 0, old(op).added + [s]) && disk == old(disk)[s := CLEAN]
              else op == Idle && r.error in {Io, Cleanup}
      ensures forall t :: t in old(disk) && t != s ==> t in disk && disk[t] == old(disk)[t]
    {
      hide SlotsOk, TrailOk, HandlesOk, OperationOk, HeldSlots, AllHeld;
      var ok := Initialize(s);
      AddingHealthy(Now(), openCount, trail, began, exported);
      if !ok {
        SameHeld(old(Now()), disk);
        var removed := RemoveEntry(s);
        LetGuardGo();
        return Failed(if removed then Io else Cleanup);
      }
      NotHeld(Now(), s);
      ghost var before := Now();
      AddedOne(before, s);
      assert disk[s := CLEAN] == disk;
      op := Adding(op.left - 1, 0, op.added + [s]);
      StillAdding(before, Now(), openCount, trail, began, exported);
      return Done;
    }

    /** Ends `add_capacity`: only now do the new slots count. */
    method AddFinish() returns (capacity: nat)
      requires Valid() && op.Adding? && op.left == 0
      modifies this`op, this`available
      ensures Valid() && op == Idle && available == old(available) + old(op).added
      ensures capacity == old(Now()).Capacity() + |old(op).added| == Now().Capacity()
    {
      hide SlotsOk, TrailOk, HandlesOk, OperationOk;
      AddingHealthy(Now(), openCount, trail, began, exported);
      AddedAll(Now());
      available := available + op.added;
      op := Idle;
      NothingHeld(Now(), openCount, trail, began, exported);
      capacity := |names| + |available| + |quarantined|;
    }

    method ReduceBegin(n: nat) returns (r: Outcome)
      requires Valid()
      modifies this`op
      ensures Valid()
      ensures old(CheckActive()) != Done ==> r == old(CheckActive())
      ensures old(CheckActive()) == Done ==> r == Done && op == Reducing(if n < |available| then n else |available|, 0)
      ensures r.Failed? ==> op == old(op)
    {
      hide SlotsOk, TrailOk, HandlesOk;
      r := CheckActive();
      if r == Done {
        op := Reducing(if n < |available| then n else |available|, 0);
        CanReduce(old(Now()), op);
      }
    }

    /** Closes one unassigned slot and removes its file. If that fails or is cancelled the
        slot is no longer held, whether or not its file is gone; the others still are. */
    method ReduceSlot() returns (r: Outcome)
      requires Valid() && op.Reducing? && op.left > 0
      modifies this`op, this`available, this`disk, this`trail
      ensures Valid() && old(available) != [] && available == old(available[..|available| - 1])
      ensures var s := old(available[|available| - 1]);
              && s in old(disk) && old(disk[s]) == CLEAN
              && (if r == Done then disk == old(disk) - {s} && op == Reducing(old(op).left - 1, old(op).removed + 1)
                  else r == Failed(Io) && op == Idle && (disk == old(disk) || disk == old(disk) - {s}))
    {
      hide SlotsOk, TrailOk, HandlesOk, HeldSlots, AllHeld;
      AddingHealthy(Now(), openCount, trail, began, exported);
      Shrunk(Now());
      TopClean(Now());
      var file := available[|available| - 1];
      available := available[..|available| - 1];
      op := Reducing(op.left - 1, op.removed + 1);
      CanReduce(old(Now()).(available := available), op);
      var ok := RemoveEntry(file);
      if !ok {
        LetGuardGo();
        return Failed(Io);
      }
      return Done;
    }

    // Starting and resuming.

    /** A pool over slots left on disk by an earlier one, before any handle is acquired. */
    constructor (d: Disk)
      requires WellFormed(d) && Distinct(d)
      ensures Valid() && state == Paused && op == Idle && disk == d && trail == [d] && (kept <==> Readable(d))
      ensures settled <==> DiskSettled(d)
    {
      state, op, needsRecovery := Paused, Idle, false;
      available, names, quarantined := [], map[], [];
      handles, openCount, nextHandle := map[], map[], 0;
      disk, trail := d, [d];
      kept, settled, began, exported := Readable(d), DiskSettled(d), 0, [];
    }

    method ResumeBegin() returns (r: Outcome)
      requires Valid()
      modifies this`op
      ensures Valid()
      ensures r == Failed(Uninstalled) <==> old(state) == Removed
      ensures r == Failed(Busy) <==> old(state) != Removed && old(op) != Idle
      ensures r == Failed(Error.NeedsRecovery) <==> old(state) == Active && old(op) == Idle && needsRecovery
      ensures r == Done && state == Paused ==> op == Resuming(disk.Keys)
      ensures r.Failed? ==> r.error in {Uninstalled, Busy, Error.NeedsRecovery, NameConflict}
      ensures !(r == Done && state == Paused) ==> op == old(op)
    {
      hide SlotsOk, TrailOk, HandlesOk;
      if state == Removed {
        return Failed(Uninstalled);
      }
      if op != Idle {
        return Failed(Busy);
      }
      if state == Active {
        return if needsRecovery then Failed(Error.NeedsRecovery) else Done;
      }
      if * {
        return Failed(NameConflict);
      }
      CanResume(Now(), disk.Keys);
      op := Resuming(disk.Keys);
      return Done;
    }

    /** Acquires the handle of one more slot. */
    method ResumeAcquire(s: SlotId) returns (r: Outcome)
      requires Valid() && op.Resuming? && s in op.todo
      modifies this`op
      ensures Valid()
      ensures if r == Done then op == Resuming(old(op).todo - {s}) else r == Failed(Io) && op == Idle
    {
      hide SlotsOk, TrailOk, HandlesOk;
      if * {
        LetGuardGo();
        return Failed(Io);
      }
      CanResume(Now(), op.todo - {s});
      op := Resuming(op.todo - {s});
      return Done;
    }

    /** Decodes every header. It can only fail on a header that cannot be decoded or on
        an I/O error: distinct disks have no duplicate name to be found. */
    method ReadNamespace() returns (r: Outcome, bound: map<Name, SlotId>, free: seq<SlotId>)
      requires WellFormed(disk) && Distinct(disk)
      ensures r == Done ==> Sorted(Current(disk), disk.Keys, bound, free)
      ensures r.Failed? ==> r == Failed(Io) || r == Failed(InvalidHeader)
      ensures r == Failed(InvalidHeader) ==> exists s :: s in disk && Recover(disk[s].header).Invalid?
    {
      hide Distinct, Recover, NoDup, OnePerSlot;
      bound, free := map[], [];
      var left := disk.Keys;
      NothingSorted(Current(disk));
      while left != {}
        invariant left <= disk.Keys && Sorted(Current(disk), disk.Keys - left, bound, free)
      {
        var s :| s in left;
        if * {
          return Failed(Io), map[], [];
        }
        ghost var done := disk.Keys - left;
        left := left - {s};
        assert disk.Keys - left == done + {s};
        match Recover(disk[s].header)
        case Invalid(_) =>
          return Failed(InvalidHeader), map[], [];
        case Free =>
          SortedFree(Current(disk), done, bound, free, s);
          free := free + [s];
        case Bound(name) =>
          if name in bound {
            NoDuplicate(disk, s, bound[name]);
            return Failed(DuplicateFilename), map[], [];
          }
          SortedBound(Current(disk), done, bound, free, s);
          bound := bound[name := s];
      }
      assert disk.Keys - left == disk.Keys;
      return Done, bound, free;
    }

    /** Empties one slot without a name: a complete one by its header, one whose
        initialisation was cut short by finishing that. */
    method Sweep(s: SlotId) returns (ok: bool)
      requires Valid() && op.Resuming? && s in disk && Recover(disk[s].header) == Free
      modifies this`disk, this`trail
      ensures Valid() && (ok ==> disk == old(disk)[s := CLEAN]) && OnlyChanges(old(disk), s, disk)
    {
      hide SlotsOk, TrailOk, HandlesOk, HeldSlots, Quiet, DiskPoint;
      NothingIsHeld(Now(), openCount, trail, began, exported);
      if disk[s].header.Short? {
        ok := Initialize(s);
      } else {
        ok := Release(s);
        Doubted(old(Now()), s, disk);
        SureAgain(old(Now()), disk);
      }
    }

    method SweepAll(free: seq<SlotId>) returns (ok: bool)
      requires Valid() && op.Resuming? && forall s :: s in free ==> s in disk && Recover(disk[s].header) == Free
      modifies this`disk, this`trail
      ensures Valid() && (ok ==> Swept(old(disk), free, |free|, disk)) && KeepsOthers(old(disk), free, disk)
    {
      hide SlotsOk, TrailOk, HandlesOk, OperationOk, HeldSlots, Swept;
      SweptNone(disk, free);
      for i := 0 to |free|
        invariant KeepsOthers(old(disk), free, disk)
        invariant Valid() && Swept(old(disk), free, i, disk) && disk.Keys == old(disk.Keys)
        invariant forall s :: s in free ==> s in disk && Recover(disk[s].header) == Free
      {
        assert free[i] in free;
        ghost var before := disk;
        ok := Sweep(free[i]);
        if !ok {
          return;
        }
        SweptOne(old(disk), free, i, before);
        assert before[free[i] := CLEAN].Keys == before.Keys;
      }
      return true;
    }

    /** With every handle acquired: rebuilds the namespace from the headers, empties the
        slots without a name, and only then publishes the pool. */
    method ResumeFinish() returns (r: Outcome)
      requires Valid() && op == Resuming({})
      modifies this`state, this`op, this`names, this`available, this`quarantined, this`needsRecovery,
               this`disk, this`trail
      ensures Valid() && op == Idle
      ensures r == Done ==> Healthy() && Rebuilds(Current(old(disk)), names)
      ensures r == Done ==> Now().Held() == old(disk).Keys == disk.Keys
      ensures r == Done ==> (forall s :: s in disk && s in names.Values ==> disk[s] == old(disk)[s])
                            && forall s :: s in disk && s !in names.Values ==> disk[s] == CLEAN
      ensures forall s :: s in old(disk) && Recover(old(disk)[s].header).Bound? ==> s in disk && disk[s] == old(disk)[s]
      ensures r.Failed? ==> state == Paused && r.error in {Io, InvalidHeader, NameConflict}
      ensures r == Failed(InvalidHeader) ==>
                disk == old(disk) && exists s :: s in disk && Recover(disk[s].header).Invalid?
    {
      hide SlotsOk, TrailOk, HandlesOk, HeldSlots, Recover, Settled, Sorted, Swept, Distinct, WellFormed;
      LastMoment(trail, disk, kept);
      SoundNow(trail, disk, kept);
      ghost var before := Now();
      var bound, free;
      r, bound, free := ReadNamespace();
      if r != Done {
        LetGuardGo();
        return;
      }
      assert Current(disk).Keys == disk.Keys;
      FreeIsThere(disk, bound, free);
      BoundIsElsewhere(disk, free);
      PausedSettled(before);
      var ok := SweepAll(free);
      if !ok {
        LetGuardGo();
        return Failed(Io);
      }
      Rebuilt(before, disk, bound, free);
      RebuiltContents(before, disk, bound, free);
      r := PublishNamespace(bound, free, before);
    }

    /** Makes the rebuilt namespace visible, and takes it back if the VFS cannot be
        registered again. */
    method PublishNamespace(bound: map<Name, SlotId>, free: seq<SlotId>, ghost before: View) returns (r: Outcome)
      requires Valid() && op == Resuming({}) && before == Now().(disk := before.disk)
      requires SlotsOk(before) && WellFormed(before.disk) && Distinct(before.disk)
      requires Sorted(Current(before.disk), before.disk.Keys, bound, free) && Swept(before.disk, free, |free|, disk)
      modifies this`state, this`op, this`names, this`available, this`quarantined, this`needsRecovery
      ensures Valid() && op == Idle
      ensures if r == Done then Now() == Published(before, disk, bound, free)
              else r == Failed(NameConflict) && state == Paused
    {
      hide SlotsOk, TrailOk, HandlesOk, OperationOk, HeldSlots, Recover, Settled, Sorted, Swept, Distinct, WellFormed;
      NothingIsHeld(Now(), openCount, trail, began, exported);
      EmptyPool(Now(), handles, openCount, nextHandle);
      PausedSettled(before);
      LastMoment(trail, disk, kept);
      Rebuilt(before, disk, bound, free);
      op, needsRecovery := Idle, false;
      if * {
        PublishedNothing(before, disk, bound, free);
        NothingHeld(Now(), openCount, trail, began, exported);
        return Failed(NameConflict);
      }
      Install(bound, free, before);
      return Done;
    }

    method Install(bound: map<Name, SlotId>, free: seq<SlotId>, ghost before: View)
      requires TrailOk(trail, disk, kept) && HandlesOk(handles, openCount, nextHandle, map[]) && quarantined == []
      requires op == Idle && !needsRecovery && settled == before.settled
      requires SlotsOk(Published(before, disk, bound, free))
      modifies this`state, this`names, this`available
      ensures Valid() && Now() == Published(before, disk, bound, free)
    {
      hide SlotsOk, TrailOk, HandlesOk, OperationOk;
      names, available := bound, free;
      state := Active;
      AnyNames(handles, openCount, nextHandle, names);
      NothingHeld(Now(), openCount, trail, began, exported);
    }
  }
}
