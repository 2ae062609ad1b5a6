/** Whole runs of a pool: any sequence of calls, cancellations and crashes, with I/O that
    fails at any point, and what holds after each of them. */
module PoolRuns {
  import opened Common
  import opened Bytes
  import opened SlotHeader
  import opened PoolDisk
  import opened PoolState
  import opened SahPool

  datatype Event =
    | Delete(name: Name)
    | Open(filename: Option<Name>, flags: Flags, candidates: seq<Name>)
    | Close(id: nat)
    | Write(id: nat, offset: nat, data: seq<byte>)
    | Truncate(id: nat, size: nat)
    | Sync(id: nat)
    | ClearAll
    | PausePool
    | UninstallPool
    | Resume
    | Acquire(slot: SlotId)
    | FinishResume
    | AddCapacity(n: nat)
    | AddNext(slot: SlotId)
    | FinishAdd
    | ReduceCapacity(n: nat)
    | ReduceNext
    | Import(name: Name, size: nat)
    | ImportPart(offset: nat, data: seq<byte>)
    | CommitImport
    | AbortImport
    | Export(name: Name)
    | ExportPart(offset: nat, length: nat)
    | DropFuture
    | Crash(left: Disk)

  /** What a crash can leave of a disk. */
  predicate Survives(d: Disk, left: Disk) {
    && left.Keys == d.Keys
    && forall s :: s in d ==>
         && left[s].header in d[s].may && left[s].may == {left[s].header} && left[s].durable
         && (d[s].durable ==> left[s].body == d[s].body)
  }

  lemma SurvivorSound(d: Disk, left: Disk)
    requires Distinct(d) && Survives(d, left)
    ensures WellFormed(left) && Distinct(left) && DiskSettled(left) && (Readable(d) ==> Readable(left))
  {
    forall s, n | s in left && MayName(left[s], n)
      ensures s in d && MayName(d[s], n)
    {
      assert left[s].header in d[s].may;
    }
  }

  /** Opens name a kind of file that a rebuild accepts. */
  predicate Classified(e: Event) {
    e.Open? ==> Recoverable(e.flags)
  }

  /** An event on a file. */
  method StepFile(pool: OpfsSAHPool, e: Event)
    requires pool.Valid()
    modifies pool
    ensures pool.Valid() && pool.settled == old(pool.settled) && (old(pool.kept) && Classified(e) ==> pool.kept)
  {
    hide TrailOk, SlotsOk, HandlesOk, OperationOk, Recoverable, Recover, Has, OptionsOk, AfterCreate, AfterDelete,
      AfterSetAside, HeldSlots, DiskPoint, OnlyChanges;
    match e
    case Delete(name) => var _, _ := pool.DeleteFile(name);
    case Open(filename, flags, candidates) =>
      if |candidates| == MAX_FILENAME_ATTEMPTS && OptionsOk(flags) {
        var _, _ := pool.OpenFile(filename, flags, candidates);
      }
    case Close(id) => if id in pool.handles { var _ := pool.CloseFile(id); }
    case Write(id, offset, data) =>
      if id in pool.handles && offset < TWO_64 && |data| < TWO_32 { var _ := pool.WriteFile(id, offset, data); }
    case Truncate(id, size) => if id in pool.handles && size < TWO_64 { var _ := pool.TruncateFile(id, size); }
    case Sync(id) => if id in pool.handles { var _ := pool.SyncFile(id); }
    case _ =>
  }

  /** An event of a transfer. */
  method StepTransfer(pool: OpfsSAHPool, e: Event)
    requires pool.Valid()
    modifies pool
    ensures pool.Valid() && pool.settled == old(pool.settled) && pool.kept == old(pool.kept)
  {
    hide TrailOk, SlotsOk, HandlesOk, OperationOk, Recover, Has, AfterCreate, AfterSetAside, HeldSlots, DiskPoint,
      OnlyChanges, WholeOrAbsent, NeverNamed;
    match e
    case Import(name, size) => if size < TWO_64 { var _ := pool.CreateImport(name, size); }
    case ImportPart(offset, data) =>
      if pool.op.Importing? && offset < TWO_64 && |data| < TWO_32 { var _ := pool.ImportWrite(offset, data); }
    case CommitImport => if pool.op.Importing? { var _ := pool.Commit(); }
    case AbortImport => if pool.op.Importing? { var _ := pool.Abort(); }
    case Export(name) => var _ := pool.OpenExport(name);
    case ExportPart(offset, length) =>
      if pool.op.Exporting? && offset < TWO_64 && length < TWO_32 { var _, _ := pool.ExportRead(offset, length); }
    case _ =>
  }

  /** An event that manages the pool. */
  method StepPool(pool: OpfsSAHPool, e: Event)
    requires pool.Valid()
    modifies pool
    ensures pool.Valid() && pool.kept == old(pool.kept)
    ensures old(pool.settled) && !(old(pool.InDoubt()) && pool.state != Active) ==> pool.settled
  {
    hide TrailOk, SlotsOk, HandlesOk, OperationOk, Recover, Has, HeldSlots, Published, DiskPoint, OnlyChanges, AllHeld;
    match e
    case ClearAll => var _ := pool.Clear();
    case PausePool => var _ := pool.Pause();
    case UninstallPool => var _ := pool.Uninstall();
    case Resume => var _ := pool.ResumeBegin();
    case Acquire(slot) => if pool.op.Resuming? && slot in pool.op.todo { var _ := pool.ResumeAcquire(slot); }
    case FinishResume => if pool.op == Resuming({}) { var _ := pool.ResumeFinish(); }
    case AddCapacity(n) => var _ := pool.AddBegin(n);
    case AddNext(slot) => if pool.op.Adding? && pool.op.left > 0 { var _ := pool.AddSlot(slot); }
    case FinishAdd => if pool.op.Adding? && pool.op.left == 0 { var _ := pool.AddFinish(); }
    case ReduceCapacity(n) => var _ := pool.ReduceBegin(n);
    case ReduceNext => if pool.op.Reducing? && pool.op.left > 0 { var _ := pool.ReduceSlot(); }
    case DropFuture => if !pool.op.Importing? { pool.LetGuardGo(); }
    case _ =>
  }

  /** One event; one whose turn it is not does nothing. */
  method Step(pool: OpfsSAHPool, e: Event) returns (next: OpfsSAHPool)
    requires pool.Valid()
    modifies pool
    ensures next.Valid() && (next == pool || fresh(next))
    ensures old(pool.kept) && Classified(e) ==> next.kept
    ensures next != pool || (old(pool.settled) && !(old(pool.InDoubt()) && pool.state != Active)) ==> next.settled
  {
    hide TrailOk, SlotsOk, HandlesOk, OperationOk, Recoverable, Survives, Distinct, DiskSettled, Readable, WellFormed;
    next := pool;
    match e
    case Crash(left) =>
      if Survives(pool.disk, left) {
        SoundNow(pool.trail, pool.disk, pool.kept);
        SurvivorSound(pool.disk, left);
        next := new OpfsSAHPool(left);
      }
    case Delete(_) => StepFile(pool, e);
    case Open(_, _, _) => StepFile(pool, e);
    case Close(_) => StepFile(pool, e);
    case Write(_, _, _) => StepFile(pool, e);
    case Sync(_) => StepFile(pool, e);
    case Import(_, _) => StepTransfer(pool, e);
    case ImportPart(_, _) => StepTransfer(pool, e);
    case CommitImport => StepTransfer(pool, e);
    case AbortImport => StepTransfer(pool, e);
    case Export(_) => StepTransfer(pool, e);
    case ExportPart(_, _) => StepTransfer(pool, e);
    case _ => StepPool(pool, e);
  }

  /** Every run from an empty directory keeps the pool valid. If SQLite classified every
      file it opened, no crash at any moment of it leaves a header that a rebuild would
      refuse. `released` says that a pool that needed recovery was paused or removed since
      the process started; otherwise no crash loses a name. */
  method Run(events: seq<Event>) returns (pool: OpfsSAHPool, released: bool)
    ensures fresh(pool) && pool.Valid()
    ensures (forall e :: e in events ==> Classified(e)) ==> pool.kept
    ensures !released ==> pool.settled
  {
    pool := new OpfsSAHPool(map[]);
    released := false;
    for i := 0 to |events|
      invariant fresh(pool) && pool.Valid()
      invariant (forall e :: e in events[..i] ==> Classified(e)) ==> pool.kept
      invariant !released ==> pool.settled
    {
      assert events[..i + 1] == events[..i] + [events[i]];
      var inDoubt := pool.InDoubt();
      var next := Step(pool, events[i]);
      released := next == pool && (released || (inDoubt && pool.state != Active));
      pool := next;
    }
    assert events[..|events|] == events;
  }

  // What validity means.

  /** A crash at any moment of the run leaves no name twice, and headers that can all be
      decoded into one namespace. */
  lemma AnyCrashRebuilds(pool: OpfsSAHPool, i: nat, h: Headers)
    requires pool.Valid() && i < |pool.trail| && CrashLeaves(pool.trail[i], h)
    ensures Unambiguous(h)
    ensures pool.kept ==> exists names :: Rebuilds(h, names)
  {
    hide Distinct, Readable, SlotsOk, HandlesOk, OperationOk, CrashLeaves, Recover;
    CrashNeverDuplicates(pool.trail[i], h);
    if pool.kept {
      CrashRebuilds(pool.trail[i], h);
    }
  }

  /** An active pool that needs no recovery agrees with its headers. */
  lemma MapAgrees(pool: OpfsSAHPool)
    requires pool.Valid() && pool.Healthy()
    ensures WellFormed(pool.disk) && Agrees(pool.names, pool.disk) && (pool.kept ==> Readable(pool.disk))
    ensures pool.kept ==> Rebuilds(Current(pool.disk), Persistent(pool.names, pool.disk))
  {
    LastMoment(pool.trail, pool.disk, pool.kept);
    SoundNow(pool.trail, pool.disk, pool.kept);
    if pool.kept {
      MapIsDecodedHeaders(pool.names, pool.disk);
    }
  }

  /** It loses none of its persistent names in a crash, and gains none, as long as no
      slots were released while it needed recovery. */
  lemma CrashKeepsNames(pool: OpfsSAHPool, h: Headers)
    requires pool.Valid() && pool.Healthy() && pool.kept && pool.settled && CrashLeaves(pool.disk, h)
    ensures Rebuilds(h, Persistent(pool.names, pool.disk))
  {
    MapAgrees(pool);
    EverySlotSettled(pool.Now());
    CrashExact(pool.names, pool.disk);
  }

  // Starting again.

  /** A resume with nothing in between. */
  method ResumeAll(pool: OpfsSAHPool) returns (r: Outcome)
    requires pool.Valid() && pool.state == Paused && pool.op == Idle
    modifies pool
    ensures pool.Valid() && pool.kept == old(pool.kept) && pool.settled == old(pool.settled)
    ensures r == Done ==>
              && pool.Healthy() && Rebuilds(Current(old(pool.disk)), pool.names)
              && pool.disk.Keys == old(pool.disk).Keys
              && forall n :: n in pool.names ==>
                   && pool.names[n] in pool.disk
                   && pool.disk[pool.names[n]] == old(pool.disk)[pool.names[n]]
    ensures r.Failed? ==> pool.state == Paused && r.error in {Io, InvalidHeader, NameConflict}
    ensures r == Failed(InvalidHeader) ==> !Readable(old(pool.disk))
  {
    hide TrailOk, SlotsOk, HandlesOk, OperationOk, Recover;
    LastMoment(pool.trail, pool.disk, pool.kept);
    r := pool.ResumeBegin();
    if r != Done {
      return;
    }
    while pool.op.todo != {}
      invariant pool.Valid() && pool.op.Resuming? && pool.state == Paused && pool.disk == old(pool.disk)
      invariant pool.kept == old(pool.kept) && pool.settled == old(pool.settled)
      decreases pool.op.todo
    {
      var s :| s in pool.op.todo;
      r := pool.ResumeAcquire(s);
      if r != Done {
        return;
      }
    }
    r := pool.ResumeFinish();
    assert r == Done ==> forall n :: n in pool.names ==> pool.names[n] in pool.names.Values;
  }

  /** Pausing and resuming brings back exactly the persistent names. */
  method PauseThenResume(pool: OpfsSAHPool) returns (r: Outcome)
    requires pool.Valid() && pool.Healthy()
    modifies pool
    ensures pool.Valid() && pool.kept == old(pool.kept) && pool.settled == old(pool.settled)
    ensures r == Done ==> pool.Healthy() && pool.names == old(Persistent(pool.names, pool.disk))
    ensures r == Done ==> forall n :: n in pool.names ==>
                            && pool.names[n] in pool.disk && pool.names[n] in old(pool.disk)
                            && pool.disk[pool.names[n]] == old(pool.disk)[pool.names[n]]
    ensures pool.kept ==> r != Failed(InvalidHeader)
  {
    hide TrailOk, HandlesOk, OperationOk, Recover;
    MapAgrees(pool);
    ghost var names := pool.names;
    r := pool.Pause();
    if r == Done {
      r := ResumeAll(pool);
      if r == Done {
        DecodesToPersistent(names, old(pool.disk), pool.names);
      }
    }
  }

  /** So does resuming in a new process after a crash, if no slots were released while the
      pool needed recovery. The new process begins without doubts. */
  method CrashThenResume(pool: OpfsSAHPool, left: Disk) returns (next: OpfsSAHPool, r: Outcome)
    requires pool.Valid() && pool.Healthy() && pool.kept && pool.settled && Survives(pool.disk, left)
    ensures fresh(next) && next.Valid() && next.kept && next.settled
    ensures r == Done ==> next.Healthy() && next.names == Persistent(pool.names, pool.disk)
    ensures r == Done ==> forall n :: n in next.names ==>
                            && next.names[n] in pool.disk && next.names[n] in next.disk
                            && (pool.disk[next.names[n]].durable ==>
                                  next.disk[next.names[n]].body == pool.disk[next.names[n]].body)
    ensures r.Failed? ==> r.error in {Io, NameConflict}
  {
    hide TrailOk, HandlesOk, OperationOk, Recover, Distinct, Settled, Readable, DiskSettled;
    MapAgrees(pool);
    SoundNow(pool.trail, pool.disk, pool.kept);
    SurvivorSound(pool.disk, left);
    CrashKeepsNames(pool, Current(left));
    next := new OpfsSAHPool(left);
    r := ResumeAll(next);
    if r == Done {
      RebuildsOnce(Current(left), next.names, Persistent(pool.names, pool.disk));
    }
  }

  /** A write and a close that succeed leave the content durable on the file's slot. */
  method WriteClose(pool: OpfsSAHPool, id: nat, offset: nat, data: seq<byte>) returns (done: bool)
    requires pool.Valid() && id in pool.handles && !pool.handles[id].deleteOnClose
    requires offset < TWO_64 && |data| < TWO_32
    modifies pool
    ensures pool.Valid() && pool.state == old(pool.state) && pool.needsRecovery == old(pool.needsRecovery)
    ensures pool.kept == old(pool.kept) && pool.settled == old(pool.settled) && pool.names == old(pool.names)
    ensures var s := old(pool.handles[id].slot);
            && s in old(pool.disk) && OnlyChanges(old(pool.disk), s, pool.disk) && s in pool.disk
            && pool.disk[s].header == old(pool.disk)[s].header
            && (done ==> pool.disk[s].durable && pool.disk[s].body == Patched(old(pool.disk)[s].body, offset, data))
  {
    hide OpfsSAHPool.Valid, HeldSlots, DiskPoint, OnlyChanges, Patched, Opens;
    HandleSlot(pool, id);
    ghost var s, before := pool.handles[id].slot, pool.disk;
    var written := pool.WriteFile(id, offset, data);
    if written != Done {
      return false;
    }
    ghost var patched := pool.disk;
    var closed := pool.CloseFile(id);
    ChangesTwice(before, s, patched, pool.disk);
    NothingPatched(before[s].body, offset);
    done := closed == Done;
  }

  lemma NothingPatched(file: seq<byte>, offset: nat)
    ensures Patched(file, offset, []) == file
  {
  }

  lemma HandleSlot(pool: OpfsSAHPool, id: nat)
    requires pool.Valid() && id in pool.handles
    ensures pool.handles[id].slot in pool.disk
    ensures pool.handles[id].name in pool.names && pool.names[pool.handles[id].name] == pool.handles[id].slot
  {
    InUse(pool.Now(), pool.handles, pool.openCount, pool.nextHandle, pool.trail, pool.began, pool.exported, id);
  }

  /** The persistent names do not depend on the content. */
  lemma SamePersistent(names: map<Name, SlotId>, a: Disk, s: SlotId, b: Disk)
    requires OnlyChanges(a, s, b) && s in a && b[s].header == a[s].header
    requires forall n :: n in names ==> names[n] in a && a[names[n]].header.Named?
    ensures forall n :: n in names ==> names[n] in b && b[names[n]].header.Named?
    ensures Persistent(names, b) == Persistent(names, a)
  {
  }

  lemma NamesHeaders(pool: OpfsSAHPool)
    requires pool.Valid() && pool.Healthy()
    ensures forall n :: n in pool.names ==> pool.names[n] in pool.disk && pool.disk[pool.names[n]].header.Named?
  {
  }

  /** What was written before a close that succeeded is still there after a crash and a
      resume: the name, on the same slot, with that content. */
  method WriteCloseCrashResume(pool: OpfsSAHPool, id: nat, offset: nat, data: seq<byte>, left: Disk)
    returns (next: OpfsSAHPool, done: bool)
    requires pool.Valid() && pool.Healthy() && pool.kept && pool.settled
    requires id in pool.handles && !pool.handles[id].deleteOnClose
    requires offset < TWO_64 && |data| < TWO_32 && pool.handles[id].name in Persistent(pool.names, pool.disk)
    modifies pool
    ensures var name, s := old(pool.handles[id].name), old(pool.handles[id].slot);
            done ==>
              && fresh(next) && next.Healthy() && s in old(pool.disk)
              && name in next.names && next.names[name] == s && s in next.disk
              && next.disk[s].body == Patched(old(pool.disk)[s].body, offset, data)
  {
    hide TrailOk, HandlesOk, OperationOk, SlotsOk, Recover, Distinct, Settled, Readable, DiskSettled, Survives,
      OnlyChanges;
    next, done := pool, false;
    ghost var h := pool.handles[id];
    HandleSlot(pool, id);
    NamesHeaders(pool);
    var closed := WriteClose(pool, id, offset, data);
    SamePersistent(pool.names, old(pool.disk), h.slot, pool.disk);
    if closed && Survives(pool.disk, left) {
      var r;
      next, r := CrashThenResume(pool, left);
      done := r == Done;
    }
  }

  /** A delete that failed at its first step, so that a crash may or may not take the name. */
  function HalfDeleted(name: Name): Slot {
    Slot(Named(name, MAIN_DB), {Named(name, MAIN_DB), Blank}, [], true)
  }

  lemma DeleteCanLeave(name: Name)
    ensures AssociatePoint(Slot(Named(name, MAIN_DB), {Named(name, MAIN_DB)}, [], true), Blank, HalfDeleted(name))
  {
  }

  lemma HalfDeletedSound(name: Name)
    ensures var d: Disk := map[0 := HalfDeleted(name)];
            && WellFormed(d) && Distinct(d) && Readable(d) && !DiskSettled(d)
            && Rebuilds(Current(d), map[name := 0])
            && CrashLeaves(d, map[0 := Blank]) && Rebuilds(map[0 := Blank], map[])
  {
    MainDbRecoverable();
    var d: Disk := map[0 := HalfDeleted(name)];
    assert Recover(Named(name, MAIN_DB)) == Bound(name);
    assert Current(d)[0] == Named(name, MAIN_DB);
    assert Blank in d[0].may && Recover(Blank) != Recover(d[0].header);
  }

  /** Resume does not flush the headers it takes over. So a name that comes back because
      deleting it failed can still be lost in a later crash. */
  method AdoptedNameCanBeLost(name: Name) returns (pool: OpfsSAHPool, r: Outcome)
    requires Storable(name)
    ensures AssociatePoint(Slot(Named(name, MAIN_DB), {Named(name, MAIN_DB)}, [], true), Blank, HalfDeleted(name))
    ensures fresh(pool) && pool.Valid() && pool.kept && !pool.settled
    ensures r == Done ==>
              && pool.Healthy() && pool.names == map[name := 0] && WellFormed(pool.disk)
              && pool.disk.Keys == {0} && pool.disk[0] == HalfDeleted(name)
              && CrashLeaves(pool.disk, map[0 := Blank]) && Rebuilds(map[0 := Blank], map[])
    ensures r.Failed? ==> r.error in {Io, NameConflict}
  {
    hide TrailOk, HandlesOk, OperationOk, SlotsOk, Recover, Distinct, Readable, DiskSettled, Settled;
    var d: Disk := map[0 := HalfDeleted(name)];
    HalfDeletedSound(name);
    DeleteCanLeave(name);
    pool := new OpfsSAHPool(d);
    r := ResumeAll(pool);
    LastMoment(pool.trail, pool.disk, pool.kept);
    if r == Done {
      RebuildsOnce(Current(d), pool.names, map[name := 0]);
      assert name in pool.names;
      assert pool.disk[0] == d[0];
    }
  }

  lemma Distinctly(s: seq<SlotId>)
    requires NoDup(s)
    ensures |Elements(s)| == |s|
  {
    if s == [] {
    } else {
      Popped(s);
      Distinctly(s[..|s| - 1]);
    }
  }

  lemma ValuesCount(names: map<Name, SlotId>)
    requires OnePerSlot(names)
    ensures |names.Values| == |names|
    decreases |names|
  {
    if names.Keys == {} {
      assert names.Values == {};
    } else {
      var n :| n in names;
      Unnamed(names, n);
      ValuesCount(names - {n});
    }
  }

  /** Each held slot is in exactly one of the three places, and capacity counts them. */
  lemma EachHeldSlotOnce(pool: OpfsSAHPool, s: SlotId)
    requires pool.Valid() && s in pool.Now().Held()
    ensures One(s in pool.available) + One(s in pool.names.Values) + One(s in pool.quarantined) == 1
    ensures |pool.Now().Held()| == pool.Now().Capacity()
  {
    var v := pool.Now();
    if v.op.Adding? {
      AddedPartition(v.available, v.op.added, v.names, v.quarantined);
    }
    InElements(v.available, s);
    InElements(v.quarantined, s);
    Distinctly(v.available);
    Distinctly(v.quarantined);
    ValuesCount(v.names);
  }
}
