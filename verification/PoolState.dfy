/** Values and predicates the pool's invariant is made of. */
module PoolState {
  import opened Common
  import opened Bytes
  import opened SlotHeader
  import opened PoolDisk

  datatype PoolPhase = Active | Paused | Removed

  /** The management operation that holds the pool's busy guard, suspended at an await
      or kept by a transfer. */
  datatype Operation =
    | Idle
    | Adding(left: nat, attempts: nat, added: seq<SlotId>)
    | Reducing(left: nat, removed: nat)
    | Resuming(todo: set<SlotId>)
    | Importing(slot: SlotId, name: Name)
    | Exporting(slot: SlotId, name: Name, size: nat)

  datatype Handle = Handle(slot: SlotId, name: Name, readOnly: bool, deleteOnClose: bool)

  datatype Error =
    | Busy | NeedsRecovery | PoolPaused | Uninstalled
    | FileExists | FileNotFound | FileInUse | FilesInUse | NoCapacity | InvalidFilename | RecoveryRequired
    | InvalidHeader | DuplicateFilename | NameCollision | OutOfRange | ReadOnly | OutOfMemory | Io | Cleanup
    | NameConflict

  datatype Outcome = Done | Failed(error: Error)

  const MAX_SAFE_INTEGER: nat := 0x1F_FFFF_FFFF_FFFF
  const MAX_FILENAME_ATTEMPTS: nat := 16

  function CheckedAdd(a: nat, b: nat): Option<nat> {
    if a + b < TWO_64 then Some(a + b) else None
  }

  /** Where file offset `offset` is in its slot, if JavaScript can address the whole span;
      64-bit overflow is refused as well. */
  function PhysicalOffset(offset: nat, length: nat): (r: Option<nat>)
    requires offset < TWO_64 && length < TWO_64
    ensures r == if offset + SECTOR_SIZE + length <= MAX_SAFE_INTEGER then Some(offset + SECTOR_SIZE) else None
  {
    var start := CheckedAdd(offset, SECTOR_SIZE);
    var end := match start case Some(s) => CheckedAdd(s, length) case None => None;
    if (match end case Some(e) => e case None => TWO_64 - 1) > MAX_SAFE_INTEGER then None else start
  }

  // Slots.

  predicate NoDup(s: seq<SlotId>) {
    forall i, j :: 0 <= i < j < |s| ==> s[i] != s[j]
  }

  predicate OnePerSlot(names: map<Name, SlotId>) {
    forall m, n :: m in names && n in names && names[m] == names[n] ==> m == n
  }

  /** Each held slot is in exactly one place. */
  predicate Partition(available: seq<SlotId>, names: map<Name, SlotId>, quarantined: seq<SlotId>) {
    && NoDup(available) && NoDup(quarantined) && OnePerSlot(names)
    && names.Values !! Elements(available) && names.Values !! Elements(quarantined)
    && Elements(available) !! Elements(quarantined)
  }

  function HeldSlots(available: seq<SlotId>, names: map<Name, SlotId>, quarantined: seq<SlotId>): set<SlotId> {
    Elements(available) + names.Values + Elements(quarantined)
  }

  /** The unassigned slots, counting those an unfinished `add_capacity` has initialised. */
  function Spare(available: seq<SlotId>, op: Operation): seq<SlotId> {
    if op.Adding? then available + op.added else available
  }

  function Elements(s: seq<SlotId>): set<SlotId> {
    set x | x in s
  }

  lemma InElements(s: seq<SlotId>, x: SlotId)
    ensures x in Elements(s) <==> x in s
  {
  }

  lemma InPushed(s: seq<SlotId>, x: SlotId)
    ensures forall y :: y in s + [x] <==> y in s || y == x
  {
  }

  lemma Pushed(s: seq<SlotId>, x: SlotId)
    ensures Elements(s + [x]) == Elements(s) + {x}
    ensures NoDup(s) && x !in s ==> NoDup(s + [x])
  {
    forall y
      ensures y in s + [x] <==> y in s || y == x
    {
    }
    if NoDup(s) && x !in s {
      forall i, j | 0 <= i < j < |s| + 1
        ensures (s + [x])[i] != (s + [x])[j]
      {
        assert s[i] in s;
      }
    }
  }

  lemma Popped(s: seq<SlotId>)
    requires s != [] && NoDup(s)
    ensures var x, rest := s[|s| - 1], s[..|s| - 1];
            s == rest + [x] && NoDup(rest) && x !in rest && Elements(s) == Elements(rest) + {x}
  {
    var x, rest := s[|s| - 1], s[..|s| - 1];
    assert s == rest + [x];
    Pushed(rest, x);
  }

  lemma Unnamed(names: map<Name, SlotId>, n: Name)
    requires n in names && OnePerSlot(names)
    ensures OnePerSlot(names - {n}) && |names - {n}| == |names| - 1
    ensures (names - {n}).Values == names.Values - {names[n]}
  {
    var rest := names - {n};
    assert rest.Keys == names.Keys - {n};
    forall s
      ensures s in rest.Values <==> s in names.Values && s != names[n]
    {
      if s in names.Values && s != names[n] {
        var m :| m in names && names[m] == s;
        assert m in rest && rest[m] == s;
      }
    }
  }

  lemma NamedValues(names: map<Name, SlotId>, n: Name, s: SlotId)
    requires n !in names
    ensures names[n := s].Values == names.Values + {s}
  {
    var more := names[n := s];
    forall x
      ensures x in more.Values <==> x in names.Values || x == s
    {
      if x in names.Values {
        var m :| m in names && names[m] == x;
        assert m in more && more[m] == x;
      } else if x == s {
        assert n in more && more[n] == x;
      }
    }
  }

  lemma Renamed(names: map<Name, SlotId>, n: Name, s: SlotId)
    requires n !in names && s !in names.Values && OnePerSlot(names)
    ensures OnePerSlot(names[n := s]) && |names[n := s]| == |names| + 1
    ensures names[n := s].Values == names.Values + {s}
  {
    var more := names[n := s];
    assert more.Keys == names.Keys + {n};
    NamedValues(names, n, s);
    forall k, m | k in more && m in more && more[k] == more[m]
      ensures k == m
    {
      assert k != n ==> names[k] in names.Values;
      assert m != n ==> names[m] in names.Values;
    }
  }

  /** A name gives up its slot, which goes on top of the unassigned ones. */
  lemma Unassign(available: seq<SlotId>, names: map<Name, SlotId>, quarantined: seq<SlotId>, n: Name)
    requires Partition(available, names, quarantined) && n in names
    ensures Partition(available + [names[n]], names - {n}, quarantined)
    ensures HeldSlots(available + [names[n]], names - {n}, quarantined) == HeldSlots(available, names, quarantined)
    ensures |names - {n}| == |names| - 1
  {
    hide NoDup, Elements, OnePerSlot;
    assert names[n] in names.Values;
    Unnamed(names, n);
    InElements(available, names[n]);
    InElements(quarantined, names[n]);
    Pushed(available, names[n]);
  }

  /** The top unassigned slot gets a name. */
  lemma Assign(available: seq<SlotId>, names: map<Name, SlotId>, quarantined: seq<SlotId>, n: Name)
    requires Partition(available, names, quarantined) && n !in names && available != []
    ensures var s, rest := available[|available| - 1], available[..|available| - 1];
            && Partition(rest, names[n := s], quarantined)
            && HeldSlots(rest, names[n := s], quarantined) == HeldSlots(available, names, quarantined)
            && |names[n := s]| == |names| + 1
  {
    hide NoDup, Elements, OnePerSlot;
    var s, rest := available[|available| - 1], available[..|available| - 1];
    Popped(available);
    InElements(rest, s);
    NotNamed(available, names, s);
    Renamed(names, n, s);
    MovedOver(Elements(rest), names.Values, Elements(quarantined), s);
  }

  lemma NotNamed(available: seq<SlotId>, names: map<Name, SlotId>, s: SlotId)
    requires names.Values !! Elements(available) && s in Elements(available)
    ensures s !in names.Values
  {
    hide Elements;
  }

  /** Moving an element from one of three disjoint sets to another. */
  lemma MovedOver(a: set<SlotId>, b: set<SlotId>, c: set<SlotId>, s: SlotId)
    requires b !! (a + {s}) && b !! c && (a + {s}) !! c && s !in a
    ensures (b + {s}) !! a && (b + {s}) !! c && a !! c
    ensures a + (b + {s}) + c == (a + {s}) + b + c
  {
  }

  /** The top unassigned slot is set aside. */
  lemma SetAside(available: seq<SlotId>, names: map<Name, SlotId>, quarantined: seq<SlotId>)
    requires Partition(available, names, quarantined) && available != []
    ensures var s, rest := available[|available| - 1], available[..|available| - 1];
            && Partition(rest, names, quarantined + [s])
            && HeldSlots(rest, names, quarantined + [s]) == HeldSlots(available, names, quarantined)
  {
    hide NoDup, Elements, OnePerSlot;
    var s, rest := available[|available| - 1], available[..|available| - 1];
    Popped(available);
    InElements(rest, s);
    InElements(quarantined, s);
    Pushed(quarantined, s);
  }

  /** The last slot set aside becomes usable again. */
  lemma Readmit(available: seq<SlotId>, names: map<Name, SlotId>, quarantined: seq<SlotId>)
    requires Partition(available, names, quarantined) && quarantined != []
    ensures var s, rest := quarantined[|quarantined| - 1], quarantined[..|quarantined| - 1];
            && Partition(available + [s], names, rest)
            && HeldSlots(available + [s], names, rest) == HeldSlots(available, names, quarantined)
  {
    hide NoDup, Elements, OnePerSlot;
    var s, rest := quarantined[|quarantined| - 1], quarantined[..|quarantined| - 1];
    Popped(quarantined);
    InElements(rest, s);
    InElements(available, s);
    Pushed(available, s);
  }

  // Open handles.

  function Holders(handles: map<nat, Handle>, s: SlotId): set<nat> {
    set id | id in handles && handles[id].slot == s
  }

  function Opens(openCount: map<SlotId, nat>, s: SlotId): nat {
    if s in openCount then openCount[s] else 0
  }

  predicate AllClosed(openCount: map<SlotId, nat>, names: map<Name, SlotId>) {
    forall n :: n in names ==> Opens(openCount, names[n]) == 0
  }

  /** A handle's name stays mapped to its slot, and the counts are right. */
  ghost predicate HandlesOk(handles: map<nat, Handle>, openCount: map<SlotId, nat>, nextHandle: nat,
                            names: map<Name, SlotId>) {
    && (forall id :: id in handles ==> id < nextHandle && handles[id].name in names
                                       && names[handles[id].name] == handles[id].slot)
    && (forall s :: Opens(openCount, s) == |Holders(handles, s)|)
  }

  lemma Forgotten(handles: map<nat, Handle>, openCount: map<SlotId, nat>, nextHandle: nat,
                  names: map<Name, SlotId>, n: Name)
    requires HandlesOk(handles, openCount, nextHandle, names) && n in names && Opens(openCount, names[n]) == 0
    ensures HandlesOk(handles, openCount, nextHandle, names - {n})
  {
    forall id | id in handles
      ensures handles[id].name != n
    {
      assert handles[id].name == n ==> id in Holders(handles, names[n]);
    }
  }

  lemma NewName(handles: map<nat, Handle>, openCount: map<SlotId, nat>, nextHandle: nat,
                names: map<Name, SlotId>, n: Name, s: SlotId)
    requires HandlesOk(handles, openCount, nextHandle, names) && n !in names
    ensures HandlesOk(handles, openCount, nextHandle, names[n := s])
  {
  }

  lemma CountsAnother(handles: map<nat, Handle>, openCount: map<SlotId, nat>, nextHandle: nat,
                      names: map<Name, SlotId>, h: Handle)
    requires HandlesOk(handles, openCount, nextHandle, names) && h.name in names && names[h.name] == h.slot
    ensures var counts := openCount[h.slot := Opens(openCount, h.slot) + 1];
            HandlesOk(handles[nextHandle := h], counts, nextHandle + 1, names)
  {
    var counts := openCount[h.slot := Opens(openCount, h.slot) + 1];
    var more := handles[nextHandle := h];
    forall s
      ensures Opens(counts, s) == |Holders(more, s)|
    {
      HoldersAdd(handles, nextHandle, h, s);
    }
  }

  lemma FreshHandle(handles: map<nat, Handle>, openCount: map<SlotId, nat>, nextHandle: nat, names: map<Name, SlotId>)
    requires HandlesOk(handles, openCount, nextHandle, names)
    ensures nextHandle !in handles
  {
  }

  lemma CountsOneLess(handles: map<nat, Handle>, openCount: map<SlotId, nat>, nextHandle: nat,
                      names: map<Name, SlotId>, id: nat)
    requires HandlesOk(handles, openCount, nextHandle, names) && id in handles
    ensures Opens(openCount, handles[id].slot) > 0
    ensures var counts := openCount[handles[id].slot := Opens(openCount, handles[id].slot) - 1];
            HandlesOk(handles - {id}, counts, nextHandle, names)
  {
    var s := handles[id].slot;
    HoldersRemove(handles, id, s);
    var counts := openCount[s := Opens(openCount, s) - 1];
    var fewer := handles - {id};
    forall t
      ensures Opens(counts, t) == |Holders(fewer, t)|
    {
      HoldersRemove(handles, id, t);
    }
  }

  /** An open handle's name is mapped to its slot, which nothing else is using. */
  lemma InUse(v: View, handles: map<nat, Handle>, openCount: map<SlotId, nat>, nextHandle: nat,
             trail: seq<Disk>, began: nat, exported: seq<byte>, id: nat)
    requires SlotsOk(v) && HandlesOk(handles, openCount, nextHandle, v.names) && id in handles
    requires OperationOk(v, openCount, trail, began, exported)
    ensures handles[id].name in v.names && v.names[handles[id].name] == handles[id].slot && handles[id].slot in v.disk
    ensures v.phase == Active && handles[id].slot !in Spare(v.available, v.op)
    ensures v.op.Exporting? || v.op.Importing? ==> v.op.slot != handles[id].slot
  {
    var s := handles[id].slot;
    assert id in Holders(handles, s);
    assert s in v.names.Values;
    InElements(Spare(v.available, v.op), s);
    InElements(v.available, s);
  }

  lemma HoldersAdd(handles: map<nat, Handle>, id: nat, h: Handle, s: SlotId)
    requires id !in handles
    ensures |Holders(handles[id := h], s)| == |Holders(handles, s)| + if h.slot == s then 1 else 0
  {
    var now := Holders(handles[id := h], s);
    if h.slot == s {
      assert now == Holders(handles, s) + {id};
    } else {
      assert now == Holders(handles, s);
    }
  }

  lemma HoldersRemove(handles: map<nat, Handle>, id: nat, s: SlotId)
    requires id in handles
    ensures |Holders(handles - {id}, s)| == |Holders(handles, s)| - if handles[id].slot == s then 1 else 0
  {
    HoldersAdd(handles - {id}, id, handles[id], s);
    assert (handles - {id})[id := handles[id]] == handles;
  }

  // The disk over time.

  ghost predicate Sound(d: Disk, kept: bool) {
    Distinct(d) && (kept ==> Readable(d))
  }

  ghost predicate TrailOk(trail: seq<Disk>, disk: Disk, kept: bool) {
    && trail != [] && trail[|trail| - 1] == disk && WellFormed(disk)
    && forall i :: 0 <= i < |trail| ==> Sound(trail[i], kept)
  }

  /** Every name a crash can leave in d2 it can leave in d, under the same header. */
  predicate NoNewNames(d: Disk, d2: Disk) {
    forall s, h :: s in d2 && h in d2[s].may && h.Named? ==> s in d && h in d[s].may
  }

  lemma NoNewNamesAt(d: Disk, d2: Disk, s: SlotId, n: Name)
    requires NoNewNames(d, d2) && s in d2 && MayName(d2[s], n)
    ensures s in d && MayName(d[s], n)
  {
    var h :| h in d2[s].may && h.Named? && h.name == n;
    assert h in d[s].may;
  }

  lemma NoNewNamesSound(d: Disk, d2: Disk, kept: bool)
    requires Sound(d, kept) && NoNewNames(d, d2)
    ensures Sound(d2, kept)
  {
    forall s, n | s in d2 && MayName(d2[s], n)
      ensures s in d && MayName(d[s], n)
    {
      NoNewNamesAt(d, d2, s, n);
    }
  }

  lemma NoNewNamesAbsent(d: Disk, d2: Disk, n: Name)
    requires Absent(d, n) && NoNewNames(d, d2)
    ensures Absent(d2, n)
  {
    forall s | s in d2
      ensures !MayName(d2[s], n)
    {
      if MayName(d2[s], n) {
        NoNewNamesAt(d, d2, s, n);
      }
    }
  }

  /** The trail only grows, by moments that each show no new name. */
  ghost predicate Quiet(trail: seq<Disk>, disk: Disk, trail2: seq<Disk>, disk2: Disk) {
    && |trail| <= |trail2| && trail2[..|trail|] == trail
    && (forall i :: |trail| <= i < |trail2| ==> NoNewNames(disk, trail2[i]))
    && trail2 != [] && trail2[|trail2| - 1] == disk2 && WellFormed(disk2)
  }

  lemma QuietPrefix(trail: seq<Disk>, disk: Disk, trail2: seq<Disk>, disk2: Disk)
    requires Quiet(trail, disk, trail2, disk2)
    ensures |trail| <= |trail2| && trail2[..|trail|] == trail
  {
  }

  lemma NothingEmptied(disk: Disk, trail: seq<Disk>)
    ensures Emptying(disk, disk) && EmptyingSince(disk, trail, |trail|)
  {
  }

  lemma PointIsQuiet(before: Disk, s: SlotId, d: Disk)
    requires s in before && DiskPoint(before, s, Blank, d)
    ensures NoNewNames(before, d)
  {
  }

  lemma QuietTrail(trail: seq<Disk>, disk: Disk, trail2: seq<Disk>, disk2: Disk, kept: bool)
    requires TrailOk(trail, disk, kept) && Quiet(trail, disk, trail2, disk2)
    ensures TrailOk(trail2, disk2, kept)
  {
    forall i | 0 <= i < |trail2|
      ensures Sound(trail2[i], kept)
    {
      if i < |trail| {
        assert trail2[i] == trail[i];
      } else {
        NoNewNamesSound(disk, trail2[i], kept);
      }
    }
  }

  lemma WeakerTrail(trail: seq<Disk>, disk: Disk, kept: bool, now: bool)
    requires TrailOk(trail, disk, kept) && (now ==> kept)
    ensures TrailOk(trail, disk, now)
  {
  }

  /** Publishing a name that is on no slot keeps every moment sound. */
  lemma PublishedTrail(trail: seq<Disk>, disk: Disk, s: SlotId, h: Header, trail2: seq<Disk>, disk2: Disk, kept: bool)
    requires TrailOk(trail, disk, kept) && h.Named? && Absent(disk, h.name) && (kept ==> Recoverable(h.flags))
    requires |trail| <= |trail2| && trail2[..|trail|] == trail && trail2 != [] && trail2[|trail2| - 1] == disk2
    requires forall i :: |trail| <= i < |trail2| ==> DiskPoint(disk, s, h, trail2[i])
    requires DiskPoint(disk, s, h, disk2) && disk[s].may == {Blank}
    ensures TrailOk(trail2, disk2, kept)
  {
    hide Distinct, Readable, DiskPoint, Recoverable;
    forall i | 0 <= i < |trail2|
      ensures Sound(trail2[i], kept)
    {
      if i < |trail| {
        assert trail2[i] == trail[i];
      } else {
        PublishedSound(disk, s, h, trail2[i], kept);
      }
    }
    PublishedSound(disk, s, h, disk2, kept);
  }

  lemma PublishedSound(disk: Disk, s: SlotId, h: Header, d: Disk, kept: bool)
    requires Sound(disk, kept) && WellFormed(disk) && h.Named? && Absent(disk, h.name)
    requires kept ==> Recoverable(h.flags)
    requires DiskPoint(disk, s, h, d) && disk[s].may == {Blank}
    ensures Sound(d, kept) && WellFormed(d)
  {
    PointDistinct(disk, s, h, d);
    if kept {
      RecoverableFlags(h.name, h.flags);
      PointReadable(disk, s, h, d);
    }
  }

  // The places of slots, and how operations move them.

  /** The pool's fields that say where each slot is, with the disk. */
  datatype View = View(
    phase: PoolPhase,
    op: Operation,
    needsRecovery: bool,
    settled: bool,
    available: seq<SlotId>,
    names: map<Name, SlotId>,
    quarantined: seq<SlotId>,
    disk: Disk)
  {
    ghost predicate Healthy() {
      phase == Active && !needsRecovery
    }

    function Held(): set<SlotId> {
      HeldSlots(available, names, quarantined)
    }

    function Capacity(): nat {
      |names| + |available| + |quarantined|
    }
  }

  /** Unassigned slots are blank and empty, durably; only the one an import has reserved
      may hold content. */
  predicate SpareClean(v: View) {
    forall s :: s in Spare(v.available, v.op) && !(v.op.Importing? && s == v.op.slot) ==>
      s in v.disk && v.disk[s] == CLEAN
  }

  /** A crash can leave names only where they are mapped, or on slots set aside. */
  ghost predicate Known(names: map<Name, SlotId>, quarantined: seq<SlotId>, d: Disk) {
    forall s, n :: s in d && MayName(d[s], n) ==> s in quarantined || (n in names && names[n] == s)
  }

  /** Every held slot has a whole header region. */
  predicate HeadersWhole(v: View) {
    && (forall n :: n in v.names ==> v.names[n] in v.disk && !v.disk[v.names[n]].header.Short?)
    && (forall s :: s in v.quarantined ==> s in v.disk && !v.disk[s].header.Short?)
  }

  predicate AllSettled(names: map<Name, SlotId>, d: Disk) {
    forall n :: n in names ==> names[n] in d && Settled(d[names[n]])
  }

  predicate DiskSettled(d: Disk) {
    forall s :: s in d ==> Settled(d[s])
  }

  ghost predicate Placed(v: View) {
    && Partition(Spare(v.available, v.op), v.names, v.quarantined)
    && HeldSlots(Spare(v.available, v.op), v.names, v.quarantined) <= v.disk.Keys
    && (v.phase != Active ==> v.names == map[] && v.available == [] && v.quarantined == [])
    && (v.Healthy() ==> v.quarantined == [])
  }

  ghost predicate SlotsOk(v: View) {
    && Placed(v)
    && SpareClean(v)
    && HeadersWhole(v)
    && (v.phase == Active ==> Known(v.names, v.quarantined, v.disk))
    && (v.Healthy() ==> InPlace(v.names, v.disk))
    && (v.Healthy() && v.settled ==> AllSettled(v.names, v.disk))
    && (v.phase != Active && v.settled ==> DiskSettled(v.disk))
  }

  /** Since that moment no crash could have left the name on any slot. */
  ghost predicate NeverNamed(trail: seq<Disk>, from: nat, n: Name) {
    forall i :: from <= i < |trail| ==> Absent(trail[i], n)
  }

  lemma StillNeverNamed(trail: seq<Disk>, disk: Disk, trail2: seq<Disk>, disk2: Disk, from: nat, n: Name)
    requires NeverNamed(trail, from, n) && Absent(disk, n) && Quiet(trail, disk, trail2, disk2)
    ensures NeverNamed(trail2, from, n)
  {
    forall i | from <= i < |trail2|
      ensures Absent(trail2[i], n)
    {
      if i < |trail| {
        assert trail2[i] == trail[i];
      } else {
        NoNewNamesAbsent(disk, trail2[i], n);
      }
    }
  }

  ghost predicate OperationOk(v: View, openCount: map<SlotId, nat>, trail: seq<Disk>, began: nat, exported: seq<byte>) {
    match v.op
    case Idle => true
    case Adding(_, _, _) => v.Healthy()
    case Reducing(left, _) => v.Healthy() && left <= |v.available|
    case Resuming(_) => v.phase == Paused
    case Importing(slot, name) =>
      && v.Healthy() && name !in v.names && Storable(name)
      && v.available != [] && v.available[|v.available| - 1] == slot
      && slot in v.disk && v.disk[slot].header == Blank && v.disk[slot].may == {Blank}
      && began <= |trail| && NeverNamed(trail, began, name)
    case Exporting(slot, name, size) =>
      && v.Healthy() && name in v.names && v.names[name] == slot && Opens(openCount, slot) == 0
      && slot in v.disk && v.disk[slot].body == exported && size == |exported|
  }

  lemma InPlaceSlot(v: View, n: Name)
    requires SlotsOk(v) && n in v.names
    ensures v.phase == Active && v.names[n] in v.disk && !v.disk[v.names[n]].header.Short?
    ensures v.names[n] !in Elements(Spare(v.available, v.op))
  {
  }

  /** A failed attempt to give up a slot that holds a name leaves the places as they are. */
  lemma Doubted(v: View, s: SlotId, disk2: Disk)
    requires SlotsOk(v) && s in v.disk && s !in Elements(Spare(v.available, v.op))
    requires DiskPoint(v.disk, s, Blank, disk2) && !disk2[s].header.Short?
    requires v.phase == Active || Recover(v.disk[s].header) == Free
    ensures SlotsOk(v.(needsRecovery := true, disk := disk2))
  {
    PointIsQuiet(v.disk, s, disk2);
    forall t, n | t in disk2 && MayName(disk2[t], n)
      ensures MayName(v.disk[t], n)
    {
      NoNewNamesAt(v.disk, disk2, t, n);
    }
  }

  // What single operations make of the places, and why the invariant survives them.

  function Top(v: View): SlotId
    requires v.available != []
  {
    v.available[|v.available| - 1]
  }

  function BelowTop(v: View): seq<SlotId>
    requires v.available != []
  {
    v.available[..|v.available| - 1]
  }

  /** A name gave up its slot. */
  function AfterDelete(v: View, n: Name): View
    requires n in v.names
  {
    v.(available := v.available + [v.names[n]], names := v.names - {n}, disk := v.disk[v.names[n] := CLEAN])
  }

  /** The next unassigned slot got a name. */
  function AfterCreate(v: View, n: Name, flags: Flags, body: seq<byte>): View
    requires v.available != []
  {
    var h := Named(n, flags);
    v.(op := Idle, available := BelowTop(v), names := v.names[n := Top(v)],
       disk := v.disk[Top(v) := Slot(h, {h}, body, true)])
  }

  /** The next unassigned slot was set aside, its header in doubt. */
  function AfterSetAside(v: View, d: Disk): View
    requires v.available != []
  {
    v.(op := Idle, available := BelowTop(v), quarantined := v.quarantined + [Top(v)], needsRecovery := true, disk := d)
  }

  lemma AfterDeleteIs(v: View, n: Name)
    requires n in v.names
    ensures var w := AfterDelete(v, n);
            && w.names == v.names - {n} && w.available == v.available + [v.names[n]]
            && w.disk == v.disk[v.names[n] := Slot(Blank, {Blank}, [], true)]
  {
  }

  lemma AfterCreateIs(v: View, n: Name, flags: Flags, body: seq<byte>)
    requires v.available != []
    ensures var w, h := AfterCreate(v, n, flags, body), Named(n, flags);
            && w.names == v.names[n := Top(v)] && v.available == w.available + [Top(v)]
            && w.disk == v.disk[Top(v) := Slot(h, {h}, body, true)]
  {
  }

  lemma OwnsItsSlot(v: View, n: Name)
    requires Partition(v.available, v.names, v.quarantined) && n in v.names
    ensures OnePerSlot(v.names) && v.names[n] !in v.available && v.names[n] !in v.quarantined
  {
    assert v.names[n] in v.names.Values;
    InElements(v.available, v.names[n]);
    InElements(v.quarantined, v.names[n]);
  }

  lemma TopIsFree(v: View)
    requires Partition(v.available, v.names, v.quarantined) && v.available != []
    ensures Top(v) !in BelowTop(v) && Top(v) in Elements(v.available)
    ensures forall m :: m in v.names ==> v.names[m] != Top(v)
    ensures v.available == BelowTop(v) + [Top(v)]
  {
    Popped(v.available);
    assert forall m :: m in v.names ==> v.names[m] in v.names.Values;
  }

  lemma CleanHasNoName()
    ensures forall n :: !MayName(CLEAN, n)
  {
  }

  /** An unused name is on no slot, whatever a crash leaves. */
  lemma Nowhere(v: View, n: Name)
    requires SlotsOk(v) && v.Healthy() && n !in v.names
    ensures Absent(v.disk, n)
  {
  }

  /** The slot that the next new file gets, while no import has reserved it. */
  lemma TopSlot(v: View)
    requires SlotsOk(v) && v.available != [] && !v.op.Adding?
    ensures Top(v) in v.disk && (v.op == Idle ==> v.disk[Top(v)] == CLEAN)
  {
    assert Top(v) in Spare(v.available, v.op);
    InElements(v.available, Top(v));
  }

  lemma DeletedPlaces(v: View, n: Name)
    requires SlotsOk(v) && v.op == Idle && n in v.names
    ensures Placed(AfterDelete(v, n))
    ensures AfterDelete(v, n).Held() == v.Held() && AfterDelete(v, n).Capacity() == v.Capacity()
  {
    hide Partition, HeldSlots, SpareClean, HeadersWhole, Known, InPlace, AllSettled;
    Unassign(v.available, v.names, v.quarantined, n);
  }

  lemma DeletedSlots(v: View, n: Name)
    requires SlotsOk(v) && v.op == Idle && n in v.names
    ensures var w := AfterDelete(v, n); SpareClean(w) && HeadersWhole(w)
  {
    hide Partition, HeldSlots, Known, AllSettled, InPlace, DiskSettled, NoDup, OnePerSlot;
    OwnsItsSlot(v, n);
    InPushed(v.available, v.names[n]);
    OwnsItsSlotStill(v, n);
  }

  lemma DeletedKnown(names: map<Name, SlotId>, quarantined: seq<SlotId>, disk: Disk, n: Name)
    requires n in names && Known(names, quarantined, disk)
    ensures Known(names - {n}, quarantined, disk[names[n] := CLEAN])
  {
    hide MayName;
    CleanHasNoName();
  }

  lemma Deleted(v: View, n: Name)
    requires SlotsOk(v) && v.op == Idle && n in v.names
    ensures var w := AfterDelete(v, n); SlotsOk(w) && w.Held() == v.Held() && w.Capacity() == v.Capacity()
  {
    hide Placed, SpareClean, HeadersWhole, Known, MayName, Settled;
    DeletedPlaces(v, n);
    DeletedSlots(v, n);
    InPlaceSlot(v, n);
    DeletedKnown(v.names, v.quarantined, v.disk, n);
    OwnsItsSlotStill(v, n);
  }

  lemma OwnsItsSlotStill(v: View, n: Name)
    requires SlotsOk(v) && v.op == Idle && n in v.names
    ensures forall m :: m in v.names && m != n ==> v.names[m] != v.names[n]
  {
    OwnsItsSlot(v, n);
  }

  lemma CreatedPlaces(v: View, n: Name, flags: Flags, body: seq<byte>)
    requires SlotsOk(v) && v.Healthy() && n !in v.names && v.available != [] && !v.op.Adding?
    ensures var w := AfterCreate(v, n, flags, body);
            Placed(w) && w.Held() == v.Held() && w.Capacity() == v.Capacity()
  {
    hide Partition, HeldSlots, SpareClean, HeadersWhole, Known, InPlace, AllSettled;
    Assign(v.available, v.names, v.quarantined, n);
    TopSlot(v);
  }

  lemma CreatedSpare(v: View, n: Name, flags: Flags, body: seq<byte>)
    requires SpareClean(v) && Placed(v) && v.available != []
    requires v.op == Idle || (v.op.Importing? && v.op.slot == Top(v))
    ensures SpareClean(AfterCreate(v, n, flags, body))
  {
    hide NoDup, OnePerSlot, HeldSlots, Elements;
    TopIsFree(v);
  }

  lemma CreatedNames(v: View, n: Name, flags: Flags, body: seq<byte>)
    requires HeadersWhole(v) && Placed(v) && v.available != [] && !v.op.Adding? && v.quarantined == []
    requires InPlace(v.names, v.disk) && Top(v) in v.disk && n !in v.names
    requires v.settled ==> AllSettled(v.names, v.disk)
    ensures var w := AfterCreate(v, n, flags, body);
            HeadersWhole(w) && InPlace(w.names, w.disk) && (v.settled ==> AllSettled(w.names, w.disk))
  {
    hide Partition, Elements, HeldSlots, Settled;
    TopIsFree(v);
    SettledAlone(Named(n, flags), body);
  }

  lemma CreatedSlots(v: View, n: Name, flags: Flags, body: seq<byte>)
    requires SlotsOk(v) && v.Healthy() && n !in v.names && v.available != []
    requires v.op == Idle || (v.op.Importing? && v.op.slot == Top(v))
    ensures var w := AfterCreate(v, n, flags, body);
            SpareClean(w) && HeadersWhole(w) && InPlace(w.names, w.disk) && (v.settled ==> AllSettled(w.names, w.disk))
  {
    hide Partition, HeldSlots, SpareClean, HeadersWhole, Known, InPlace, AllSettled, DiskSettled;
    TopSlot(v);
    CreatedSpare(v, n, flags, body);
    CreatedNames(v, n, flags, body);
  }

  lemma SettledAlone(h: Header, body: seq<byte>)
    ensures Settled(Slot(h, {h}, body, true))
  {
  }

  lemma CreatedKnown(v: View, n: Name, flags: Flags, body: seq<byte>)
    requires SlotsOk(v) && v.Healthy() && n !in v.names && v.available != [] && !v.op.Adding?
    ensures var w := AfterCreate(v, n, flags, body); Known(w.names, w.quarantined, w.disk)
  {
    hide Partition, HeldSlots, AllSettled, SpareClean, HeadersWhole;
    TopIsFree(v);
    Nowhere(v, n);
  }

  lemma Created(v: View, n: Name, flags: Flags, body: seq<byte>)
    requires SlotsOk(v) && v.Healthy() && n !in v.names && v.available != []
    requires v.op == Idle || (v.op.Importing? && v.op.slot == Top(v))
    ensures var w := AfterCreate(v, n, flags, body);
            SlotsOk(w) && w.Held() == v.Held() && w.Capacity() == v.Capacity()
  {
    hide Placed, SpareClean, HeadersWhole, Known, InPlace, AllSettled, MayName, DiskSettled;
    CreatedPlaces(v, n, flags, body);
    CreatedSlots(v, n, flags, body);
    CreatedKnown(v, n, flags, body);
  }

  lemma PutAsideSpare(v: View, d: Disk)
    requires SpareClean(v) && Placed(v) && v.available != [] && OnlyChanges(v.disk, Top(v), d)
    requires v.op == Idle || (v.op.Importing? && v.op.slot == Top(v))
    ensures SpareClean(AfterSetAside(v, d))
  {
    hide NoDup, OnePerSlot, HeldSlots, Elements;
    TopIsFree(v);
  }

  lemma PutAsideHeaders(v: View, d: Disk)
    requires HeadersWhole(v) && Placed(v) && v.available != [] && OnlyChanges(v.disk, Top(v), d) && Top(v) in d
    requires !v.op.Adding? && !d[Top(v)].header.Short?
    ensures HeadersWhole(AfterSetAside(v, d))
  {
    hide NoDup, OnePerSlot, HeldSlots, Elements, Partition;
    TopIsFree(v);
    InPushed(v.quarantined, Top(v));
  }

  lemma PutAsideKnown(names: map<Name, SlotId>, quarantined: seq<SlotId>, disk: Disk, s: SlotId, d: Disk)
    requires Known(names, quarantined, disk) && OnlyChanges(disk, s, d)
    ensures Known(names, quarantined + [s], d)
  {
    hide MayName;
    InPushed(quarantined, s);
  }

  lemma PutAside(v: View, d: Disk)
    requires SlotsOk(v) && v.available != [] && OnlyChanges(v.disk, Top(v), d) && Top(v) in d
    requires !d[Top(v)].header.Short?
    requires v.op == Idle || (v.op.Importing? && v.op.slot == Top(v))
    ensures var w := AfterSetAside(v, d); SlotsOk(w) && w.Held() == v.Held() && w.Capacity() == v.Capacity()
  {
    hide Partition, HeldSlots, SpareClean, HeadersWhole, Known, InPlace, AllSettled, DiskSettled;
    SetAside(v.available, v.names, v.quarantined);
    PutAsideSpare(v, d);
    PutAsideHeaders(v, d);
    PutAsideKnown(v.names, v.quarantined, v.disk, Top(v), d);
  }

  /** An import gave its slot back empty. */
  lemma GivenBack(v: View)
    requires SlotsOk(v) && v.op.Importing? && v.available != [] && v.op.slot == Top(v) && Top(v) in v.disk
    ensures SlotsOk(v.(op := Idle, disk := v.disk[v.op.slot := CLEAN]))
  {
    hide Partition, HeldSlots, MayName, DiskSettled, Settled, Known;
    TopIsFree(v);
    EmptiedKnown(v.names, v.quarantined, v.disk, v.op.slot);
  }

  /** Emptying a slot leaves no new name anywhere. */
  lemma EmptiedKnown(names: map<Name, SlotId>, quarantined: seq<SlotId>, disk: Disk, s: SlotId)
    requires Known(names, quarantined, disk)
    ensures Known(names, quarantined, disk[s := CLEAN])
  {
    hide MayName;
    CleanHasNoName();
  }

  /** The slot keeps its headers while its content or durability changes. */
  predicate SameHeaders(a: Slot, b: Slot) {
    b.header == a.header && (b.may == a.may || b.may == {a.header})
  }

  lemma SameHeadersQuiet(d: Disk, s: SlotId, slot: Slot)
    requires WellFormed(d) && s in d && SameHeaders(d[s], slot)
    ensures NoNewNames(d, d[s := slot]) && WellFormed(d[s := slot])
  {
  }

  lemma Rewritten(v: View, s: SlotId, slot: Slot)
    requires SlotsOk(v) && WellFormed(v.disk) && s in v.disk && SameHeaders(v.disk[s], slot)
    requires s !in Spare(v.available, v.op) || (v.op.Importing? && v.op.slot == s)
    ensures SlotsOk(v.(disk := v.disk[s := slot]))
  {
    hide Partition, HeldSlots, Known, Settled, MayName;
    SameHeadersQuiet(v.disk, s, slot);
    if v.phase == Active {
      FewerKnown(v.names, v.quarantined, v.disk, v.disk[s := slot]);
    }
    SameSettled(v.disk[s], slot);
  }

  lemma SameSettled(a: Slot, b: Slot)
    requires SameHeaders(a, b) && a.header in a.may
    ensures Settled(a) ==> Settled(b)
  {
    hide Recover;
  }

  lemma FewerKnown(names: map<Name, SlotId>, quarantined: seq<SlotId>, disk: Disk, d: Disk)
    requires Known(names, quarantined, disk) && NoNewNames(disk, d) && d.Keys == disk.Keys
    ensures Known(names, quarantined, d)
  {
    forall t, n | t in d && MayName(d[t], n)
      ensures MayName(disk[t], n)
    {
      NoNewNamesAt(disk, d, t, n);
    }
  }

  lemma OneMoreMoment(trail: seq<Disk>, disk: Disk, kept: bool, s: SlotId, slot: Slot)
    requires TrailOk(trail, disk, kept) && s in disk && SameHeaders(disk[s], slot)
    ensures TrailOk(trail + [disk[s := slot]], disk[s := slot], kept)
  {
    SameHeadersQuiet(disk, s, slot);
    NoNewNamesSound(disk, disk[s := slot], kept);
  }

  /** I/O on another slot does not disturb the operation that holds the guard. */
  lemma OperationGoesOn(v: View, openCount: map<SlotId, nat>, trail: seq<Disk>, began: nat, exported: seq<byte>,
                        s: SlotId, slot: Slot)
    requires OperationOk(v, openCount, trail, began, exported) && s in v.disk && WellFormed(v.disk)
    requires v.op.Importing? || v.op.Exporting? ==> v.op.slot != s
    requires trail != [] && trail[|trail| - 1] == v.disk && SameHeaders(v.disk[s], slot)
    requires SlotsOk(v)
    ensures var d := v.disk[s := slot]; OperationOk(v.(disk := d), openCount, trail + [d], began, exported)
  {
    if v.op.Importing? {
      Nowhere(v, v.op.name);
      SameHeadersQuiet(v.disk, s, slot);
      NoNewNamesAbsent(v.disk, v.disk[s := slot], v.op.name);
    }
  }

  lemma OperationElsewhere(v: View, openCount: map<SlotId, nat>, trail: seq<Disk>, began: nat, exported: seq<byte>,
                           s: SlotId, count: nat)
    requires OperationOk(v, openCount, trail, began, exported)
    requires v.op.Exporting? ==> v.op.slot != s
    ensures OperationOk(v, openCount[s := count], trail, began, exported)
  {
  }

  lemma NothingHeld(v: View, openCount: map<SlotId, nat>, trail: seq<Disk>, began: nat, exported: seq<byte>)
    requires v.op == Idle
    ensures OperationOk(v, openCount, trail, began, exported)
  {
  }

  // Imports.

  /** From its start on, an import is all or nothing under any crash. */
  ghost predicate WholeOrAbsent(trail: seq<Disk>, from: nat, slot: SlotId, n: Name, image: seq<byte>) {
    forall i :: from <= i < |trail| ==> AllOrNothing(trail[i], slot, n, image)
  }

  lemma AbsentIsWhole(d: Disk, slot: SlotId, n: Name, image: seq<byte>)
    requires Absent(d, n)
    ensures AllOrNothing(d, slot, n, image)
  {
  }

  lemma ReservedSlot(v: View, openCount: map<SlotId, nat>, trail: seq<Disk>, began: nat, exported: seq<byte>)
    requires SlotsOk(v) && OperationOk(v, openCount, trail, began, exported) && v.op.Importing?
    requires trail != [] && trail[|trail| - 1] == v.disk
    ensures v.Healthy() && v.quarantined == [] && v.available != [] && v.op.slot == Top(v) && v.op.slot in v.disk
    ensures v.disk[v.op.slot].header == Blank && v.disk[v.op.slot].may == {Blank}
    ensures Storable(v.op.name) && v.op.name !in v.names && Absent(v.disk, v.op.name)
    ensures NeverNamed(trail, began, v.op.name)
    ensures forall image :: WholeOrAbsent(trail, began, v.op.slot, v.op.name, image)
  {
    Nowhere(v, v.op.name);
    forall image
      ensures WholeOrAbsent(trail, began, v.op.slot, v.op.name, image)
    {
      forall i | began <= i < |trail|
        ensures AllOrNothing(trail[i], v.op.slot, v.op.name, image)
      {
        AbsentIsWhole(trail[i], v.op.slot, v.op.name, image);
      }
    }
  }

  /** Moments of one `associate` on the import's slot extend what holds since it began. */
  lemma WholeLonger(trail: seq<Disk>, trail2: seq<Disk>, from: nat, slot: SlotId, n: Name, image: seq<byte>,
                    disk: Disk, h: Header)
    requires WholeOrAbsent(trail, from, slot, n, image) && |trail| <= |trail2| && trail2[..|trail|] == trail
    requires forall i :: |trail| <= i < |trail2| ==> DiskPoint(disk, slot, h, trail2[i])
    requires (h.Named? && h.name == n && Absent(disk, n)
              && slot in disk && disk[slot].durable && disk[slot].body == image)
          || (h == Blank && AllOrNothing(disk, slot, n, image))
    ensures WholeOrAbsent(trail2, from, slot, n, image)
  {
    hide DiskPoint, AllOrNothing, Absent;
    forall i | from <= i < |trail2|
      ensures AllOrNothing(trail2[i], slot, n, image)
    {
      if i < |trail| {
        assert trail2[i] == trail[i];
      } else if h.Named? {
        InDisk(disk, slot, h, trail2[i]);
        PublishAllOrNothing(disk, slot, h, trail2[i], n);
      } else {
        InDisk(disk, slot, h, trail2[i]);
        RetractAllOrNothing(disk, slot, trail2[i], n, image);
      }
    }
  }

  lemma InDisk(disk: Disk, slot: SlotId, h: Header, d: Disk)
    requires DiskPoint(disk, slot, h, d)
    ensures slot in disk
  {
  }

  lemma ImportContinues(v: View, openCount: map<SlotId, nat>, trail: seq<Disk>, began: nat, exported: seq<byte>,
                        slot: Slot)
    requires OperationOk(v, openCount, trail, began, exported) && SlotsOk(v) && v.op.Importing? && WellFormed(v.disk)
    requires trail != [] && trail[|trail| - 1] == v.disk && v.op.slot in v.disk && SameHeaders(v.disk[v.op.slot], slot)
    ensures var d := v.disk[v.op.slot := slot]; OperationOk(v.(disk := d), openCount, trail + [d], began, exported)
  {
    Nowhere(v, v.op.name);
    SameHeadersQuiet(v.disk, v.op.slot, slot);
    NoNewNamesAbsent(v.disk, v.disk[v.op.slot := slot], v.op.name);
  }

  lemma Reserved(v: View, openCount: map<SlotId, nat>, trail: seq<Disk>, exported: seq<byte>, name: Name)
    requires SlotsOk(v) && v.Healthy() && v.op == Idle && v.available != [] && name !in v.names && ValidFilename(name)
    ensures var w := v.(op := Importing(Top(v), name));
            SlotsOk(w) && OperationOk(w, openCount, trail, |trail|, exported)
    ensures Top(v) in v.disk && v.disk[Top(v)] == CLEAN
  {
    TopSlot(v);
  }

  lemma MainDbRecoverable()
    ensures Recoverable(MAIN_DB)
  {
  }

  lemma LastMoment(trail: seq<Disk>, disk: Disk, kept: bool)
    requires TrailOk(trail, disk, kept)
    ensures trail != [] && trail[|trail| - 1] == disk && WellFormed(disk)
  {
  }

  lemma FlushedMoment(trail: seq<Disk>, from: nat, slot: SlotId, n: Name, image: seq<byte>, d: Disk)
    requires WholeOrAbsent(trail, from, slot, n, image) && AllOrNothing(d, slot, n, image)
    ensures WholeOrAbsent(trail + [d], from, slot, n, image)
  {
    hide AllOrNothing;
  }

  // Exports.

  lemma ExportedSlot(v: View, openCount: map<SlotId, nat>, trail: seq<Disk>, began: nat, exported: seq<byte>)
    requires OperationOk(v, openCount, trail, began, exported) && v.op.Exporting?
    ensures v.op.slot in v.disk && v.disk[v.op.slot].body == exported && v.op.size == |exported|
  {
  }

  lemma Reading(v: View, openCount: map<SlotId, nat>, trail: seq<Disk>, began: nat, n: Name)
    requires SlotsOk(v) && v.Healthy() && v.op == Idle && n in v.names && Opens(openCount, v.names[n]) == 0
    ensures v.names[n] in v.disk
    ensures var body := v.disk[v.names[n]].body;
            var w := v.(op := Exporting(v.names[n], n, |body|));
            SlotsOk(w) && OperationOk(w, openCount, trail, began, body)
  {
  }

  lemma Released(v: View)
    requires SlotsOk(v) && !v.op.Importing?
    ensures SlotsOk(v.(op := Idle))
  {
    if v.op.Adding? {
      AddedPartition(v.available, v.op.added, v.names, v.quarantined);
    }
  }

  lemma AddedPartition(available: seq<SlotId>, added: seq<SlotId>, names: map<Name, SlotId>, quarantined: seq<SlotId>)
    requires Partition(available + added, names, quarantined)
    ensures Partition(available, names, quarantined)
    ensures HeldSlots(available, names, quarantined) <= HeldSlots(available + added, names, quarantined)
  {
    var all := available + added;
    forall i, j | 0 <= i < j < |available|
      ensures available[i] != available[j]
    {
      assert all[i] == available[i] && all[j] == available[j];
    }
    forall x | x in available
      ensures x in all
    {
    }
    assert Elements(available) <= Elements(all);
  }

  // Clearing, and giving everything up.

  function AfterReadmit(v: View): View
    requires v.quarantined != []
  {
    var s := v.quarantined[|v.quarantined| - 1];
    v.(available := v.available + [s], quarantined := v.quarantined[..|v.quarantined| - 1], disk := v.disk[s := CLEAN])
  }

  lemma Readmitted(v: View)
    requires SlotsOk(v) && v.op == Idle && v.quarantined != []
    ensures var w := AfterReadmit(v); SlotsOk(w) && w.Held() == v.Held() && w.Capacity() == v.Capacity()
  {
    hide Partition, HeldSlots, SpareClean, HeadersWhole, Known, InPlace, AllSettled;
    Readmit(v.available, v.names, v.quarantined);
    ReadmittedSlots(v);
  }

  lemma LastSetAside(v: View)
    requires SlotsOk(v) && v.op == Idle && v.quarantined != []
    ensures var s := v.quarantined[|v.quarantined| - 1];
            && s in v.disk && !v.disk[s].header.Short?
            && s !in Elements(Spare(v.available, v.op)) && s !in v.names.Values
            && s !in v.quarantined[..|v.quarantined| - 1]
  {
    var s := v.quarantined[|v.quarantined| - 1];
    Popped(v.quarantined);
    InElements(v.quarantined, s);
    InElements(v.available, s);
  }

  lemma ReadmittedSlots(v: View)
    requires SlotsOk(v) && v.op == Idle && v.quarantined != []
    ensures var w := AfterReadmit(v); SpareClean(w) && HeadersWhole(w)
    ensures var w := AfterReadmit(v); v.phase == Active ==> Known(w.names, w.quarantined, w.disk)
  {
    hide Partition, HeldSlots, MayName, AllSettled, InPlace;
    var s, rest := v.quarantined[|v.quarantined| - 1], v.quarantined[..|v.quarantined| - 1];
    LastSetAside(v);
    InPushed(v.available, s);
    InPushed(rest, s);
    assert v.quarantined == rest + [s];
    assert forall n :: n in v.names ==> v.names[n] in v.names.Values;
    CleanHasNoName();
  }

  lemma AllClear(v: View)
    requires SlotsOk(v) && v.phase == Active && v.names == map[] && v.quarantined == [] && v.op == Idle
    ensures SlotsOk(v.(needsRecovery := false, settled := true))
  {
  }

  /** The headers of a pool that needs recovery are in doubt, and stay so without it. */
  predicate StillSettled(v: View) {
    v.settled && (v.phase == Active ==> !v.needsRecovery)
  }

  lemma LetGo(v: View, phase: PoolPhase)
    requires SlotsOk(v) && WellFormed(v.disk) && phase != Active
    ensures SlotsOk(v.(phase := phase, op := Idle, settled := StillSettled(v),
                       available := [], names := map[], quarantined := []))
  {
    hide Settled, MayName;
    if StillSettled(v) && v.phase == Active {
      EverySlotSettled(v);
    }
  }

  lemma PausedSettled(v: View)
    requires SlotsOk(v)
    ensures v.phase != Active && v.settled ==> DiskSettled(v.disk)
  {
  }

  lemma EverySlotSettled(v: View)
    requires SlotsOk(v) && v.settled && WellFormed(v.disk) && (v.Healthy() || v.phase != Active)
    ensures DiskSettled(v.disk)
  {
    if v.Healthy() {
      forall s | s in v.disk
        ensures Settled(v.disk[s])
      {
        forall h | h in v.disk[s].may && h.Named?
          ensures h.name in v.names && v.names[h.name] == s
        {
          assert MayName(v.disk[s], h.name);
        }
      }
    }
  }

  lemma Counted(handles: map<nat, Handle>, openCount: map<SlotId, nat>, nextHandle: nat, names: map<Name, SlotId>,
                id: nat)
    requires HandlesOk(handles, openCount, nextHandle, names) && id in handles
    ensures handles[id].name in names && Opens(openCount, names[handles[id].name]) > 0
  {
    assert id in Holders(handles, handles[id].slot);
  }

  lemma NoHandles(handles: map<nat, Handle>, openCount: map<SlotId, nat>, nextHandle: nat, names: map<Name, SlotId>)
    requires HandlesOk(handles, openCount, nextHandle, names) && AllClosed(openCount, names)
    ensures handles == map[] && HandlesOk(handles, openCount, nextHandle, map[])
  {
    if handles != map[] {
      var id :| id in handles;
      Counted(handles, openCount, nextHandle, names, id);
    }
  }

  lemma EmptyPool(v: View, handles: map<nat, Handle>, openCount: map<SlotId, nat>, nextHandle: nat)
    requires SlotsOk(v) && v.phase != Active && HandlesOk(handles, openCount, nextHandle, v.names)
    ensures handles == map[] && v.available == [] && v.names == map[] && v.quarantined == []
  {
    NoHandles(handles, openCount, nextHandle, v.names);
  }

  lemma Suspected(v: View)
    requires SlotsOk(v)
    ensures SlotsOk(v.(needsRecovery := true))
  {
  }

  lemma ClearHeld(v: View)
    requires SlotsOk(v) && v.names == map[] && v.quarantined == [] && v.op == Idle
    ensures forall s :: s in v.Held() ==> s in v.disk && v.disk[s] == CLEAN
  {
  }

  // Adding and removing slots.

  lemma CanAdd(v: View, left: nat)
    requires SlotsOk(v) && v.op == Idle
    ensures SlotsOk(v.(op := Adding(left, 0, [])))
  {
    assert v.available + [] == v.available;
  }

  /** A slot that is not held, or a new one, is initialised. */
  lemma AddedOne(v: View, s: SlotId)
    requires SlotsOk(v) && v.op.Adding? && v.op.left > 0 && v.Healthy() && s !in v.Held() && s !in v.op.added
    ensures SlotsOk(v.(op := Adding(v.op.left - 1, 0, v.op.added + [s]), disk := v.disk[s := CLEAN]))
  {
    hide Partition, HeldSlots, Known, InPlace, AllSettled;
    var w := v.(op := Adding(v.op.left - 1, 0, v.op.added + [s]), disk := v.disk[s := CLEAN]);
    assert Spare(w.available, w.op) == Spare(v.available, v.op) + [s];
    PushSpare(Spare(v.available, v.op), v.names, v.quarantined, s, v.available, v.op.added);
    InPushed(Spare(v.available, v.op), s);
    AddedSlots(v, s);
  }

  lemma PushSpare(spare: seq<SlotId>, names: map<Name, SlotId>, quarantined: seq<SlotId>, s: SlotId,
                  available: seq<SlotId>, added: seq<SlotId>)
    requires Partition(spare, names, quarantined) && spare == available + added
    requires s !in HeldSlots(available, names, quarantined) && s !in added
    ensures Partition(spare + [s], names, quarantined)
    ensures HeldSlots(spare + [s], names, quarantined) == HeldSlots(spare, names, quarantined) + {s}
  {
    InElements(available, s);
    Pushed(spare, s);
  }

  lemma AddedSlots(v: View, s: SlotId)
    requires SlotsOk(v) && v.Healthy() && s !in v.Held()
    ensures var d := v.disk[s := CLEAN];
            && Known(v.names, v.quarantined, d) && InPlace(v.names, d)
            && (v.settled ==> AllSettled(v.names, d))
  {
    hide Partition, MayName, Settled;
    CleanHasNoName();
    assert forall n :: n in v.names ==> v.names[n] in v.names.Values;
  }

  lemma AddedAll(v: View)
    requires SlotsOk(v) && v.op.Adding? && v.Healthy()
    ensures SlotsOk(v.(op := Idle, available := v.available + v.op.added))
  {
  }

  lemma HeldSame(v: View, d: Disk)
    requires SlotsOk(v) && forall s :: s in AllHeld(v) && s in v.disk ==> s in d && d[s] == v.disk[s]
    ensures AllHeld(v) <= d.Keys
    ensures forall s :: s in Spare(v.available, v.op) ==> s in v.disk && s in d && d[s] == v.disk[s]
    ensures forall n :: n in v.names ==> v.names[n] in v.disk && v.names[n] in d && d[v.names[n]] == v.disk[v.names[n]]
    ensures forall s :: s in v.quarantined ==> s in v.disk && s in d && d[s] == v.disk[s]
  {
    hide SpareClean, HeadersWhole, Known, InPlace, AllSettled, Partition;
    assert forall s :: s in Spare(v.available, v.op) ==> s in Elements(Spare(v.available, v.op));
    assert forall n :: n in v.names ==> v.names[n] in v.names.Values;
    assert forall s :: s in v.quarantined ==> s in Elements(v.quarantined);
  }

  /** A change to slots that are not held leaves the places as they are. */
  lemma Unheld(v: View, d: Disk)
    requires SlotsOk(v) && NoNewNames(v.disk, d)
    requires forall s :: s in AllHeld(v) && s in v.disk ==> s in d && d[s] == v.disk[s]
    requires v.phase != Active && v.settled ==> DiskSettled(d)
    ensures SlotsOk(v.(disk := d))
  {
    hide Partition, HeldSlots, Settled;
    HeldSame(v, d);
    UnheldKnown(v.names, v.quarantined, v.disk, d, v.phase == Active);
  }

  lemma UnheldKnown(names: map<Name, SlotId>, quarantined: seq<SlotId>, disk: Disk, d: Disk, active: bool)
    requires NoNewNames(disk, d) && (active ==> Known(names, quarantined, disk))
    ensures active ==> Known(names, quarantined, d)
  {
    forall t, n | t in d && MayName(d[t], n)
      ensures t in disk && MayName(disk[t], n)
    {
      NoNewNamesAt(disk, d, t, n);
    }
  }

  /** The top unassigned slot is no longer held. */
  lemma Shrunk(v: View)
    requires SlotsOk(v) && v.available != [] && !v.op.Adding? && !v.op.Importing?
    ensures SlotsOk(v.(available := BelowTop(v))) && Top(v) in v.disk
    ensures Top(v) !in HeldSlots(BelowTop(v), v.names, v.quarantined)
    ensures HeldSlots(BelowTop(v), v.names, v.quarantined) == v.Held() - {Top(v)}
  {
    Popped(v.available);
    InElements(v.available, Top(v));
  }

  function AllHeld(v: View): set<SlotId> {
    HeldSlots(Spare(v.available, v.op), v.names, v.quarantined)
  }

  /** No transfer depends on the disk. */
  predicate NoTransfer(op: Operation) {
    !op.Importing? && !op.Exporting?
  }

  lemma UnheldMoment(v: View, openCount: map<SlotId, nat>, trail: seq<Disk>, began: nat, exported: seq<byte>,
                     kept: bool, d: Disk)
    requires SlotsOk(v) && OperationOk(v, openCount, trail, began, exported) && TrailOk(trail, v.disk, kept)
    requires NoTransfer(v.op) && NoNewNames(v.disk, d) && WellFormed(d)
    requires v.phase != Active && v.settled ==> DiskSettled(d)
    requires forall s :: s in AllHeld(v) && s in v.disk ==> s in d && d[s] == v.disk[s]
    ensures SlotsOk(v.(disk := d)) && TrailOk(trail + [d], d, kept)
    ensures OperationOk(v.(disk := d), openCount, trail + [d], began, exported)
  {
    hide SlotsOk, TrailOk, Partition, HeldSlots;
    Unheld(v, d);
    OneMore(trail, v.disk, kept, d);
  }

  lemma OneMore(trail: seq<Disk>, disk: Disk, kept: bool, d: Disk)
    requires TrailOk(trail, disk, kept) && NoNewNames(disk, d) && WellFormed(d)
    ensures TrailOk(trail + [d], d, kept)
  {
    NoNewNamesSound(disk, d, kept);
  }

  /** A random slot name that cannot be used: the pool has it, or a nonempty file does. */
  predicate NameTaken(v: View, s: SlotId) {
    s in v.available || s in v.names.Values || (v.op.Adding? && s in v.op.added)
    || (s in v.disk && v.disk[s].header != Short(0))
  }

  lemma AddingHealthy(v: View, openCount: map<SlotId, nat>, trail: seq<Disk>, began: nat, exported: seq<byte>)
    requires OperationOk(v, openCount, trail, began, exported) && (v.op.Adding? || v.op.Reducing?) && SlotsOk(v)
    ensures v.Healthy() && v.quarantined == []
    ensures v.op.Reducing? ==> v.op.left <= |v.available|
  {
  }

  lemma NotHeld(v: View, s: SlotId)
    requires v.op.Adding? && v.quarantined == [] && s !in v.available && s !in v.names.Values && s !in v.op.added
    ensures s !in AllHeld(v) && s !in v.Held()
  {
    InElements(v.available, s);
  }

  lemma AnotherAttempt(v: View, op: Operation)
    requires SlotsOk(v) && v.op.Adding? && op.Adding? && op.added == v.op.added
    ensures SlotsOk(v.(op := op))
  {
  }

  lemma CanReduce(v: View, op: Operation)
    requires SlotsOk(v) && (v.op == Idle || v.op.Reducing?) && op.Reducing?
    ensures SlotsOk(v.(op := op)) && AllHeld(v.(op := op)) == v.Held()
  {
  }

  lemma SameHeld(v: View, d: Disk)
    ensures AllHeld(v.(disk := d)) == AllHeld(v)
  {
  }

  lemma TopClean(v: View)
    requires SlotsOk(v) && v.available != [] && (v.op == Idle || v.op.Reducing?)
    ensures Top(v) in v.disk && v.disk[Top(v)] == CLEAN
  {
    assert Top(v) in Spare(v.available, v.op);
  }

  lemma StillAdding(v: View, w: View, openCount: map<SlotId, nat>, trail: seq<Disk>, began: nat, exported: seq<byte>)
    requires OperationOk(v, openCount, trail, began, exported) && v.op.Adding? && w.op.Adding?
    requires w.phase == v.phase && w.needsRecovery == v.needsRecovery
    ensures OperationOk(w, openCount, trail, began, exported)
  {
  }

  // Rebuilding.

  /** The slots taken so far, each in the map if it has a name and else in the list. */
  ghost predicate Sorted(h: Headers, done: set<SlotId>, bound: map<Name, SlotId>, free: seq<SlotId>) {
    && done <= h.Keys && NoDup(free) && OnePerSlot(bound)
    && (forall s :: s in done ==> !Recover(h[s]).Invalid?)
    && (forall s :: s in free <==> s in done && Recover(h[s]) == Free)
    && (forall n :: n in bound ==> bound[n] in done && Recover(h[bound[n]]) == Bound(n))
    && (forall s :: s in done && Recover(h[s]).Bound? ==>
          Recover(h[s]).name in bound && bound[Recover(h[s]).name] == s)
  }

  lemma SortedFree(h: Headers, done: set<SlotId>, bound: map<Name, SlotId>, free: seq<SlotId>, s: SlotId)
    requires Sorted(h, done, bound, free) && s in h && s !in done && Recover(h[s]) == Free
    ensures Sorted(h, done + {s}, bound, free + [s])
  {
    hide Recover, OnePerSlot;
    Pushed(free, s);
    InPushed(free, s);
  }

  lemma SortedBound(h: Headers, done: set<SlotId>, bound: map<Name, SlotId>, free: seq<SlotId>, s: SlotId)
    requires Sorted(h, done, bound, free) && s in h && s !in done
    requires Recover(h[s]).Bound? && Recover(h[s]).name !in bound
    ensures Sorted(h, done + {s}, bound[Recover(h[s]).name := s], free)
  {
    hide Recover, NoDup, OnePerSlot;
    var n := Recover(h[s]).name;
    assert OnePerSlot(bound[n := s]) by {
      assert forall m :: m in bound ==> bound[m] in done;
      Renamed(bound, n, s);
    }
    forall t | t in done && Recover(h[t]).Bound?
      ensures Recover(h[t]).name in bound[n := s] && bound[n := s][Recover(h[t]).name] == t
    {
    }
  }

  lemma TwoPlaces(free: seq<SlotId>, bound: map<Name, SlotId>)
    requires NoDup(free) && OnePerSlot(bound) && forall s :: s in free ==> s !in bound.Values
    ensures Partition(free, bound, []) && HeldSlots(free, bound, []) == Elements(free) + bound.Values
  {
  }

  lemma SortedAll(h: Headers, bound: map<Name, SlotId>, free: seq<SlotId>)
    requires Sorted(h, h.Keys, bound, free)
    ensures Rebuilds(h, bound) && Partition(free, bound, []) && HeldSlots(free, bound, []) == h.Keys
  {
    hide NoDup, OnePerSlot;
    forall s
      ensures s in bound.Values <==> s in h && Recover(h[s]).Bound?
    {
    }
    TwoPlaces(free, bound);
  }

  /** The first slots of the list have been emptied, the others are as they were. */
  predicate Swept(before: Disk, free: seq<SlotId>, count: nat, d: Disk)
    requires count <= |free|
  {
    && d.Keys == before.Keys
    && (forall s :: s in free[..count] ==> s in d && d[s] == CLEAN)
    && (forall s :: s in d && s !in free[..count] ==> d[s] == before[s])
  }

  lemma SweptOne(before: Disk, free: seq<SlotId>, count: nat, d: Disk)
    requires count < |free| && Swept(before, free, count, d) && free[count] in d
    ensures Swept(before, free, count + 1, d[free[count] := CLEAN])
  {
    assert free[..count + 1] == free[..count] + [free[count]];
    InPushed(free[..count], free[count]);
  }

  function Published(v: View, d: Disk, bound: map<Name, SlotId>, free: seq<SlotId>): View {
    v.(phase := Active, op := Idle, needsRecovery := false, available := free, names := bound,
       quarantined := [], disk := d)
  }

  lemma RebuiltKnown(before: Disk, bound: map<Name, SlotId>, free: seq<SlotId>, d: Disk)
    requires WellFormed(before) && Distinct(before) && Rebuilds(Current(before), bound)
    requires Swept(before, free, |free|, d)
    requires forall s :: s in before && Recover(before[s].header) == Free ==> s in free
    requires forall n :: n in bound ==> bound[n] !in free
    ensures Known(bound, [], d) && InPlace(bound, d)
  {
    var h := Current(before);
    assert free[..|free|] == free;
    CleanHasNoName();
    forall n | n in bound
      ensures bound[n] in d && d[bound[n]].header.Named? && d[bound[n]].header.name == n
    {
      RecoveredName(h[bound[n]]);
    }
    forall t, n | t in d && MayName(d[t], n)
      ensures n in bound && bound[n] == t
    {
      RecoveredName(h[t]);
      assert MayName(before[t], h[t].name);
    }
  }

  lemma RebuiltSlots(v: View, d: Disk, bound: map<Name, SlotId>, free: seq<SlotId>)
    requires Sorted(Current(v.disk), v.disk.Keys, bound, free) && Swept(v.disk, free, |free|, d)
    requires v.settled ==> DiskSettled(v.disk)
    ensures var w := Published(v, d, bound, free);
            SpareClean(w) && HeadersWhole(w) && (v.settled ==> AllSettled(bound, d))
  {
    hide Recover, Settled, NoDup, OnePerSlot;
    var h := Current(v.disk);
    assert free[..|free|] == free;
    forall n | n in bound
      ensures bound[n] in d && d[bound[n]] == v.disk[bound[n]] && !d[bound[n]].header.Short?
    {
      assert Recover(h[bound[n]]) == Bound(n);
      RecoveredName(h[bound[n]]);
    }
  }

  lemma Rebuilt(v: View, d: Disk, bound: map<Name, SlotId>, free: seq<SlotId>)
    requires WellFormed(v.disk) && Distinct(v.disk) && Sorted(Current(v.disk), v.disk.Keys, bound, free)
    requires Swept(v.disk, free, |free|, d)
    requires v.settled ==> DiskSettled(v.disk)
    ensures SlotsOk(Published(v, d, bound, free))
    ensures Rebuilds(Current(v.disk), bound) && Published(v, d, bound, free).Held() == v.disk.Keys
  {
    hide Partition, HeldSlots, Settled, Distinct, Rebuilds, Known, InPlace, AllSettled, SpareClean, HeadersWhole;
    assert Current(v.disk).Keys == v.disk.Keys;
    SortedAll(Current(v.disk), bound, free);
    RebuiltSlots(v, d, bound, free);
    RebuiltKnown(v.disk, bound, free, d);
  }

  lemma CanResume(v: View, todo: set<SlotId>)
    requires SlotsOk(v) && (v.op == Idle || v.op.Resuming?)
    ensures SlotsOk(v.(op := Resuming(todo)))
  {
  }

  lemma NothingSorted(h: Headers)
    ensures Sorted(h, {}, map[], [])
  {
  }

  lemma NoDuplicate(d: Disk, s: SlotId, t: SlotId)
    requires WellFormed(d) && Distinct(d) && s in d && t in d
    requires Recover(d[s].header).Bound? && Recover(d[s].header) == Recover(d[t].header)
    ensures s == t
  {
    RecoveredName(d[s].header);
    RecoveredName(d[t].header);
    assert MayName(d[s], d[s].header.name) && MayName(d[t], d[s].header.name);
  }

  lemma NothingIsHeld(v: View, openCount: map<SlotId, nat>, trail: seq<Disk>, began: nat, exported: seq<byte>)
    requires SlotsOk(v) && OperationOk(v, openCount, trail, began, exported) && v.op.Resuming?
    ensures AllHeld(v) == {} && Elements(Spare(v.available, v.op)) == {} && v.phase == Paused
  {
  }

  lemma SureAgain(v: View, d: Disk)
    requires SlotsOk(v.(needsRecovery := true, disk := d)) && v.phase != Active
    ensures SlotsOk(v.(disk := d))
  {
  }

  lemma SweptNone(d: Disk, free: seq<SlotId>)
    ensures Swept(d, free, 0, d)
  {
  }

  lemma SoundNow(trail: seq<Disk>, disk: Disk, kept: bool)
    requires TrailOk(trail, disk, kept)
    ensures Distinct(disk) && (kept ==> Readable(disk))
  {
  }

  predicate KeepsOthers(before: Disk, free: seq<SlotId>, d: Disk) {
    forall s :: s in before && s !in free ==> s in d && d[s] == before[s]
  }

  lemma BoundIsElsewhere(d: Disk, free: seq<SlotId>)
    requires forall s :: s in free ==> s in d && Recover(d[s].header) == Free
    ensures forall s :: s in d && Recover(d[s].header).Bound? ==> s !in free
  {
  }

  lemma FreeIsThere(d: Disk, bound: map<Name, SlotId>, free: seq<SlotId>)
    requires Sorted(Current(d), d.Keys, bound, free)
    ensures forall s :: s in free ==> s in d && Recover(d[s].header) == Free
  {
  }

  lemma RebuiltContents(v: View, d: Disk, bound: map<Name, SlotId>, free: seq<SlotId>)
    requires Sorted(Current(v.disk), v.disk.Keys, bound, free) && Swept(v.disk, free, |free|, d)
    ensures d.Keys == v.disk.Keys
    ensures forall s :: s in d && s in bound.Values ==> d[s] == v.disk[s]
    ensures forall s :: s in d && s !in bound.Values ==> d[s] == CLEAN
  {
    hide Recover, NoDup, OnePerSlot;
    assert free[..|free|] == free;
    var h := Current(v.disk);
    forall s | s in d
      ensures s in free || s in bound.Values
    {
      assert !Recover(h[s]).Invalid?;
    }
  }

  lemma PublishedNothing(v: View, d: Disk, bound: map<Name, SlotId>, free: seq<SlotId>)
    requires SlotsOk(Published(v, d, bound, free)) && WellFormed(d)
    ensures SlotsOk(v.(phase := Paused, op := Idle, needsRecovery := false, available := [], names := map[],
                       quarantined := [], disk := d))
  {
    hide Settled, MayName;
    LetGo(Published(v, d, bound, free), Paused);
  }

  lemma AnyNames(handles: map<nat, Handle>, openCount: map<SlotId, nat>, nextHandle: nat, names: map<Name, SlotId>)
    requires HandlesOk(handles, openCount, nextHandle, map[])
    ensures HandlesOk(handles, openCount, nextHandle, names)
  {
  }
}
