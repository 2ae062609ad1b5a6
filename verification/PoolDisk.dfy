/** The slots of a pool on disk, what a crash can leave of them, and what rebuilding the
    namespace from them yields. */
module PoolDisk {
  import opened Bytes
  import opened SlotHeader

  type SlotId = nat

  /** One slot. `header` and `body` are what its handle reads now; `may` holds every
      header a crash can leave, and a crash keeps `body` when it is durable. A single
      header write is atomic. */
  datatype Slot = Slot(header: Header, may: set<Header>, body: seq<byte>, durable: bool)

  type Disk = map<SlotId, Slot>

  /** What a successful flush makes of a slot. */
  function Flushed(s: Slot): Slot {
    s.(may := {s.header}, durable := true)
  }

  const CLEAN := Slot(Blank, {Blank}, [], true)

  /** A crash can leave the slot under this name. */
  predicate MayName(s: Slot, n: Name) {
    exists h :: h in s.may && h.Named? && h.name == n
  }

  predicate OnlyName(s: Slot, n: Name) {
    forall h :: h in s.may && h.Named? ==> h.name == n
  }

  predicate WellFormed(d: Disk) {
    forall s :: s in d ==> d[s].header in d[s].may
  }

  /** No crash leaves one name on two slots, and no slot is torn between two names. */
  ghost predicate Distinct(d: Disk) {
    && (forall s, t, n :: s in d && t in d && MayName(d[s], n) && MayName(d[t], n) ==> s == t)
    && (forall s, m, n :: s in d && MayName(d[s], m) && MayName(d[s], n) ==> m == n)
  }

  /** Every header a crash can leave is one that the rebuild accepts. */
  predicate Readable(d: Disk) {
    forall s, h :: s in d && h in d[s].may ==> !Recover(h).Invalid?
  }

  predicate Absent(d: Disk, n: Name) {
    forall s :: s in d ==> !MayName(d[s], n)
  }

  /** A crash here leaves the name unknown, or on this slot with this durable content. */
  predicate AllOrNothing(d: Disk, slot: SlotId, n: Name, image: seq<byte>) {
    forall s :: s in d && MayName(d[s], n) ==> s == slot && d[s].body == image && d[s].durable
  }

  // Crashing and rebuilding.

  type Headers = map<SlotId, Header>

  predicate CrashLeaves(d: Disk, h: Headers) {
    h.Keys == d.Keys && forall s :: s in d ==> h[s] in d[s].may
  }

  function Current(d: Disk): Headers {
    map s | s in d :: d[s].header
  }

  /** Decoding these headers succeeds and yields exactly this namespace. */
  ghost predicate Rebuilds(h: Headers, names: map<Name, SlotId>) {
    && (forall s :: s in h ==> !Recover(h[s]).Invalid?)
    && (forall n :: n in names ==> names[n] in h && Recover(h[names[n]]) == Bound(n))
    && (forall s :: s in h && Recover(h[s]).Bound? ==>
          Recover(h[s]).name in names && names[Recover(h[s]).name] == s)
  }

  ghost predicate Unambiguous(h: Headers) {
    forall s, t :: s in h && t in h && Recover(h[s]).Bound? && Recover(h[s]) == Recover(h[t]) ==> s == t
  }

  lemma RecoveredName(h: Header)
    requires Recover(h).Bound?
    ensures h.Named? && Recover(h) == Bound(h.name) && Recoverable(h.flags)
  {
  }

  /** Whatever a crash leaves, no name is found twice. */
  lemma CrashNeverDuplicates(d: Disk, h: Headers)
    requires Distinct(d) && CrashLeaves(d, h)
    ensures Unambiguous(h)
  {
    forall s, t | s in h && t in h && Recover(h[s]).Bound? && Recover(h[s]) == Recover(h[t])
      ensures s == t
    {
      RecoveredName(h[s]);
      RecoveredName(h[t]);
      assert MayName(d[s], h[s].name) && MayName(d[t], h[s].name);
    }
  }

  /** The namespace that decoding these headers yields. */
  ghost function Bindings(h: Headers): (names: map<Name, SlotId>)
    requires Unambiguous(h) && forall s :: s in h ==> !Recover(h[s]).Invalid?
    ensures Rebuilds(h, names)
  {
    map s | s in h && Recover(h[s]).Bound? :: Recover(h[s]).name := s
  }

  lemma RebuildsOnce(h: Headers, a: map<Name, SlotId>, b: map<Name, SlotId>)
    requires Rebuilds(h, a) && Rebuilds(h, b)
    ensures a == b
  {
    assert forall n :: n in a ==> n in b && a[n] == b[n];
    assert forall n :: n in b ==> n in a;
  }

  /** Rebuilding after any crash succeeds, with one namespace. */
  lemma CrashRebuilds(d: Disk, h: Headers)
    requires Distinct(d) && Readable(d) && CrashLeaves(d, h)
    ensures exists names :: Rebuilds(h, names)
  {
    CrashNeverDuplicates(d, h);
    assert Rebuilds(h, Bindings(h));
  }

  /** All headers a crash can leave in the slot mean the same as the one in place. */
  predicate Settled(s: Slot) {
    forall h :: h in s.may ==> Recover(h) == Recover(s.header)
  }

  /** Every name that a crash can leave on a slot is mapped to that slot. */
  ghost predicate Accounted(names: map<Name, SlotId>, d: Disk) {
    forall s, n :: s in d && MayName(d[s], n) ==> n in names && names[n] == s
  }

  /** Every mapped name is the one in its slot's header. */
  predicate InPlace(names: map<Name, SlotId>, d: Disk) {
    forall n :: n in names ==> names[n] in d && d[names[n]].header.Named? && d[names[n]].header.name == n
  }

  /** What the map of an active pool that needs no recovery says of the disk. */
  ghost predicate Agrees(names: map<Name, SlotId>, d: Disk) {
    InPlace(names, d) && Accounted(names, d)
  }

  /** The entries that outlive a restart: those not opened as delete-on-close. */
  function Persistent(names: map<Name, SlotId>, d: Disk): map<Name, SlotId>
    requires forall n :: n in names ==> names[n] in d && d[names[n]].header.Named?
  {
    map n | n in names && !Has(d[names[n]].header.flags, DELETEONCLOSE) :: names[n]
  }

  /** The in-memory map holds exactly what decoding all slot headers yields, plus the
      live delete-on-close names. */
  lemma MapIsDecodedHeaders(names: map<Name, SlotId>, d: Disk)
    requires WellFormed(d) && Agrees(names, d) && Readable(d)
    ensures Rebuilds(Current(d), Persistent(names, d))
  {
    var h := Current(d);
    forall n | n in names
      ensures !Has(d[names[n]].header.flags, DELETEONCLOSE) ==> Recover(h[names[n]]) == Bound(n)
    {
      assert d[names[n]].header in d[names[n]].may;
    }
    forall s | s in h && Recover(h[s]).Bound?
      ensures Recover(h[s]).name in Persistent(names, d) && Persistent(names, d)[Recover(h[s]).name] == s
    {
      RecoveredName(h[s]);
      assert h[s] in d[s].may;
      assert MayName(d[s], h[s].name);
    }
  }

  lemma ReadableName(h: Header)
    requires h.Named? && !Recover(h).Invalid?
    ensures Recover(h) == if Has(h.flags, DELETEONCLOSE) then Free else Bound(h.name)
  {
  }

  /** And decoding the headers cannot yield anything else. */
  lemma DecodesToPersistent(names: map<Name, SlotId>, d: Disk, rebuilt: map<Name, SlotId>)
    requires WellFormed(d) && Agrees(names, d) && Rebuilds(Current(d), rebuilt)
    ensures rebuilt == Persistent(names, d)
  {
    hide Recover, Has, MayName, Accounted;
    var h := Current(d);
    forall n | n in names
      ensures n in Persistent(names, d) ==> n in rebuilt && rebuilt[n] == names[n]
    {
      ReadableName(h[names[n]]);
    }
    forall n | n in rebuilt
      ensures n in Persistent(names, d)
    {
      RecoveredName(h[rebuilt[n]]);
      ReadableName(h[rebuilt[n]]);
      NamedByHeader(names, d, rebuilt[n]);
    }
  }

  lemma NamedByHeader(names: map<Name, SlotId>, d: Disk, s: SlotId)
    requires WellFormed(d) && Accounted(names, d) && s in d && d[s].header.Named?
    ensures d[s].header.name in names && names[d[s].header.name] == s
  {
    assert MayName(d[s], d[s].header.name);
  }

  /** A crash is sure to preserve the persistent names exactly when every slot is
      settled; otherwise some crash loses or changes one of them. */
  lemma CrashExact(names: map<Name, SlotId>, d: Disk)
    requires WellFormed(d) && Agrees(names, d) && Readable(d)
    ensures (forall h :: CrashLeaves(d, h) ==> Rebuilds(h, Persistent(names, d)))
       <==> (forall s :: s in d ==> Settled(d[s]))
  {
    MapIsDecodedHeaders(names, d);
    if forall s :: s in d ==> Settled(d[s]) {
      forall h | CrashLeaves(d, h)
        ensures Rebuilds(h, Persistent(names, d))
      {
        assert forall s :: s in d ==> Recover(h[s]) == Recover(Current(d)[s]);
      }
    } else {
      var s, g :| s in d && g in d[s].may && Recover(g) != Recover(d[s].header);
      UnsettledCrash(d, s, g, Persistent(names, d));
    }
  }

  lemma UnsettledCrash(d: Disk, s: SlotId, g: Header, names: map<Name, SlotId>)
    requires WellFormed(d) && Readable(d) && s in d && g in d[s].may && Recover(g) != Recover(d[s].header)
    requires Rebuilds(Current(d), names)
    ensures CrashLeaves(d, Current(d)[s := g]) && !Rebuilds(Current(d)[s := g], names)
  {
    var h := Current(d);
    var c := h[s := g];
    assert CrashLeaves(d, c);
    assert d[s].header in d[s].may;
    assert h[s] == d[s].header && c[s] == g;
  }

  // One call to `associate`.

  /** A state the slot can be in at any moment while header h replaces what it held. Old
      names stay possible until h is durable, and the content goes only after them. */
  predicate AssociatePoint(before: Slot, h: Header, p: Slot) {
    && p.header in p.may
    && p.may <= before.may + {h}
    && ((p.body == before.body && (before.durable ==> p.durable))
        || (h == Blank && p.may == {Blank}))
  }

  /** The two disks differ in one slot at most. */
  predicate OnlyChanges(before: Disk, s: SlotId, d: Disk) {
    d.Keys == before.Keys && forall t :: t in d && t != s ==> d[t] == before[t]
  }

  lemma NothingChanges(a: Disk, s: SlotId)
    ensures OnlyChanges(a, s, a)
  {
  }

  lemma ChangesTwice(a: Disk, s: SlotId, b: Disk, c: Disk)
    requires OnlyChanges(a, s, b) && OnlyChanges(b, s, c)
    ensures OnlyChanges(a, s, c) && (s in a && c[s] == a[s] ==> c == a)
  {
  }

  lemma SameAfterClean(a: Disk, s: SlotId, b: Disk)
    requires OnlyChanges(a, s, b) && s in a
    ensures b[s := CLEAN] == a[s := CLEAN]
  {
  }

  ghost predicate DiskPoint(before: Disk, s: SlotId, h: Header, d: Disk) {
    s in before && OnlyChanges(before, s, d) && AssociatePoint(before[s], h, d[s])
  }

  lemma NoPointYet(before: Disk, s: SlotId, h: Header)
    requires s in before && WellFormed(before)
    ensures DiskPoint(before, s, h, before)
  {
  }

  lemma WritePoint(before: Disk, s: SlotId, h: Header, now: Header)
    requires s in before && WellFormed(before) && (now == h || now == before[s].header)
    ensures DiskPoint(before, s, h, before[s := before[s].(header := now, may := before[s].may + {h})])
  {
  }

  lemma FlushPoint(before: Disk, s: SlotId, h: Header, d: Disk)
    requires DiskPoint(before, s, h, d) && s in d
    ensures DiskPoint(before, s, h, d[s := Flushed(d[s])])
  {
  }

  /** A flush before counts as part of it. */
  lemma PointAfterFlush(a: Disk, s: SlotId, h: Header, d: Disk)
    requires s in a && WellFormed(a) && DiskPoint(a[s := Flushed(a[s])], s, h, d)
    ensures DiskPoint(a, s, h, d)
  {
  }

  lemma TruncatePoint(before: Disk, s: SlotId, d: Disk)
    requires DiskPoint(before, s, Blank, d) && s in d && d[s].may == {Blank}
    ensures DiskPoint(before, s, Blank, d[s := d[s].(body := [], durable := false)])
  {
  }

  /** The header may be written: it is blank, or its name is on no other slot. */
  ghost predicate MayReceive(d: Disk, s: SlotId, h: Header) {
    && s in d
    && (h.Named? ==> OnlyName(d[s], h.name) && forall t :: t in d && t != s ==> !MayName(d[t], h.name))
  }

  lemma PointNames(before: Slot, h: Header, p: Slot, n: Name)
    requires AssociatePoint(before, h, p) && MayName(p, n)
    ensures MayName(before, n) || (h.Named? && h.name == n)
  {
    var g :| g in p.may && g.Named? && g.name == n;
    assert g in before.may || g == h;
  }

  lemma PointDistinct(before: Disk, s: SlotId, h: Header, d: Disk)
    requires Distinct(before) && WellFormed(before) && MayReceive(before, s, h) && DiskPoint(before, s, h, d)
    ensures Distinct(d) && WellFormed(d)
  {
    forall n | MayName(d[s], n)
      ensures MayName(before[s], n) || (h.Named? && h.name == n)
    {
      PointNames(before[s], h, d[s], n);
    }
    forall n | MayName(before[s], n) && h.Named?
      ensures n == h.name
    {
    }
  }

  lemma PointReadable(before: Disk, s: SlotId, h: Header, d: Disk)
    requires Readable(before) && s in before && DiskPoint(before, s, h, d) && !Recover(h).Invalid?
    ensures Readable(d)
  {
  }

  /** Publishing a durable image under a name is all or nothing at every moment. */
  lemma PublishAllOrNothing(before: Disk, s: SlotId, h: Header, d: Disk, n: Name)
    requires s in before && DiskPoint(before, s, h, d) && Absent(before, n)
    requires before[s].durable && h.Named? && h.name == n
    ensures AllOrNothing(d, s, n, before[s].body)
  {
    forall t | t in d && MayName(d[t], n)
      ensures t == s
    {
    }
  }

  /** So is taking it back. */
  lemma RetractAllOrNothing(before: Disk, s: SlotId, d: Disk, n: Name, image: seq<byte>)
    requires s in before && DiskPoint(before, s, Blank, d) && AllOrNothing(before, s, n, image)
    ensures AllOrNothing(d, s, n, image)
  {
    forall t | t in d && MayName(d[t], n)
      ensures t == s && d[t].body == image && d[t].durable
    {
      if t == s {
        PointNames(before[s], Blank, d[s], n);
      }
    }
  }

  // Emptying several slots.

  /** Every slot is as it was, or on its way to being empty. */
  predicate Emptying(before: Disk, d: Disk) {
    d.Keys == before.Keys && forall s :: s in d ==> d[s] == before[s] || AssociatePoint(before[s], Blank, d[s])
  }

  /** So are all moments since. */
  ghost predicate EmptyingSince(before: Disk, trail: seq<Disk>, from: nat) {
    from <= |trail| && forall i :: from <= i < |trail| ==> Emptying(before, trail[i])
  }

  /** What that means for a crash: a name that can still be found has its whole content, as
      durable as it was. */
  lemma EmptyingKeeps(before: Disk, d: Disk, s: SlotId, n: Name)
    requires Emptying(before, d) && s in d && MayName(d[s], n)
    ensures MayName(before[s], n) && d[s].body == before[s].body && (before[s].durable ==> d[s].durable)
  {
    if d[s] != before[s] {
      PointNames(before[s], Blank, d[s], n);
    }
  }

  lemma EmptyingMore(before: Disk, d: Disk, s: SlotId, e: Disk)
    requires Emptying(before, d) && DiskPoint(d, s, Blank, e)
    ensures Emptying(before, e)
  {
  }

  /** After emptying one more slot. */
  lemma EmptyingOn(before: Disk, from: nat, trail: seq<Disk>, d: Disk, s: SlotId, trail2: seq<Disk>, d2: Disk)
    requires EmptyingSince(before, trail, from) && Emptying(before, d) && DiskPoint(d, s, Blank, d2)
    requires |trail| <= |trail2| && trail2[..|trail|] == trail
    requires forall i :: |trail| <= i < |trail2| ==> DiskPoint(d, s, Blank, trail2[i])
    ensures EmptyingSince(before, trail2, from) && Emptying(before, d2)
  {
    hide Emptying, DiskPoint;
    EmptyingMore(before, d, s, d2);
    forall i | from <= i < |trail2|
      ensures Emptying(before, trail2[i])
    {
      if i < |trail| {
        assert trail2[i] == trail2[..|trail|][i];
      } else {
        EmptyingMore(before, d, s, trail2[i]);
      }
    }
  }
}
