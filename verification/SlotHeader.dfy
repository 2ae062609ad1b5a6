/** The header at the start of every pool slot: how a name and open flags are written to
    it, and how the name is read back when the pool is rebuilt. */
module SlotHeader {
  import opened Bits
  import opened Bytes

  const SECTOR_SIZE: nat := 4096
  const HEADER_MAX_FILENAME_SIZE: nat := 512
  const HEADER_CORPUS_SIZE: nat := 516
  const MAX_DB_FILENAME_SIZE: nat := 499

  type Name = seq<byte>

  /** Open flags as SQLite passes them, an unsigned 32-bit number. */
  type Flags = x: int | 0 <= x < 0x1_0000_0000

  const READONLY: nat := 0x1
  const READWRITE: nat := 0x2
  const CREATE: nat := 0x4
  const DELETEONCLOSE: nat := 0x8
  const EXCLUSIVE: nat := 0x10
  const MAIN_DB: nat := 0x100
  const TEMP_DB: nat := 0x200
  const TRANSIENT_DB: nat := 0x400
  const MAIN_JOURNAL: nat := 0x800
  const TEMP_JOURNAL: nat := 0x1000
  const SUBJOURNAL: nat := 0x2000
  const SUPER_JOURNAL: nat := 0x4000
  const WAL: nat := 0x8_0000

  predicate Has(flags: Flags, bit: nat)
    requires bit > 0
  {
    flags / bit % 2 == 1
  }

  function One(b: bool): nat {
    if b then 1 else 0
  }

  function PersistentKinds(flags: Flags): nat {
    One(Has(flags, MAIN_DB)) + One(Has(flags, MAIN_JOURNAL)) + One(Has(flags, SUPER_JOURNAL)) + One(Has(flags, WAL))
  }

  function TemporaryKinds(flags: Flags): nat {
    One(Has(flags, TEMP_DB)) + One(Has(flags, TEMP_JOURNAL))
    + One(Has(flags, TRANSIENT_DB)) + One(Has(flags, SUBJOURNAL))
  }

  const JOURNAL: Name := [0x2D, 0x6A, 0x6F, 0x75, 0x72, 0x6E, 0x61, 0x6C]
  const WAL_SUFFIX: Name := [0x2D, 0x77, 0x61, 0x6C]

  /** Flags that `OpenOptions` accepts from SQLite: one access mode, creation only with
      write access, and at most one file kind. */
  predicate OptionsOk(flags: Flags) {
    && Has(flags, READONLY) != Has(flags, READWRITE)
    && (Has(flags, CREATE) ==> Has(flags, READWRITE))
    && (Has(flags, EXCLUSIVE) || Has(flags, DELETEONCLOSE) ==> Has(flags, CREATE))
    && PersistentKinds(flags) + TemporaryKinds(flags) <= 1
  }

  /** What a slot header says: nothing, or the name and open flags of a file. A file
      shorter than the header region is a slot whose initialisation was cut short. */
  datatype Header = Short(size: nat) | Blank | Named(name: Name, flags: Flags)

  datatype HeaderError =
    | NotTerminated
    | NonzeroPadding
    | UnnamedFlags
    | NotUtf8
    | BadKind
    | TemporaryKept
    | ShorterThanHeader

  datatype Recovered = Free | Bound(name: Name) | Invalid(error: HeaderError)

  /** The meaning of a header when the namespace is rebuilt. */
  function Recover(h: Header): Recovered {
    match h
    case Short(_) => Free
    case Blank => Free
    case Named(name, flags) =>
      if PersistentKinds(flags) + TemporaryKinds(flags) != 1 then Invalid(BadKind)
      else if Has(flags, DELETEONCLOSE) then Free
      else if TemporaryKinds(flags) == 1 then Invalid(TemporaryKept)
      else Bound(name)
  }

  /** The flags a rebuilt namespace accepts: one file kind, and temporary kinds only
      together with delete-on-close. */
  predicate Recoverable(flags: Flags) {
    && PersistentKinds(flags) + TemporaryKinds(flags) == 1
    && (TemporaryKinds(flags) == 1 ==> Has(flags, DELETEONCLOSE))
  }

  lemma RecoverableFlags(name: Name, flags: Flags)
    ensures Recover(Named(name, flags)).Invalid? <==> !Recoverable(flags)
  {
  }

  /** An open request that passes validation can still write a header that the rebuild
      refuses: one without a file kind, or a temporary file that is kept. */
  lemma OptionsCanBeUnrecoverable(name: Name)
    ensures OptionsOk(CREATE + READWRITE) && Recover(Named(name, CREATE + READWRITE)) == Invalid(BadKind)
    ensures OptionsOk(CREATE + READWRITE + TEMP_DB)
         && Recover(Named(name, CREATE + READWRITE + TEMP_DB)) == Invalid(TemporaryKept)
  {
  }

  /** Names the header has room for. */
  predicate Storable(name: Name) {
    name != [] && 0 !in name && |name| < HEADER_MAX_FILENAME_SIZE
  }

  predicate ValidFilename(name: Name) {
    name != [] && 0 !in name && |name| <= MAX_DB_FILENAME_SIZE
  }

  /** Database names are those to which SQLite can append up to 12 characters. */
  lemma SuffixesFit(name: Name)
    ensures ValidFilename(name) <==>
            name != [] && forall suffix :: |suffix| <= 12 && 0 !in suffix ==> Storable(name + suffix)
  {
    if name != [] && forall suffix :: |suffix| <= 12 && 0 !in suffix ==> Storable(name + suffix) {
      var longest: Name := seq(12, _ => 45);
      assert Storable(name + longest);
      assert name + [] == name && Storable(name + []);
    }
  }

  lemma SuffixNames()
    ensures |JOURNAL| == 8 && forall i :: 0 <= i < 8 ==> JOURNAL[i] as int == "-journal"[i] as int
    ensures |WAL_SUFFIX| == 4 && forall i :: 0 <= i < 4 ==> WAL_SUFFIX[i] as int == "-wal"[i] as int
  {
  }

  // The bytes of a header.

  function BigEndian(x: Flags): (s: seq<byte>)
    ensures |s| == 4
  {
    [x / 0x100_0000, x / 0x1_0000 % 0x100, x / 0x100 % 0x100, x % 0x100]
  }

  function FromBigEndian(s: seq<byte>): Flags
    requires |s| == 4
  {
    (s[0] as int) * 0x100_0000 + (s[1] as int) * 0x1_0000 + (s[2] as int) * 0x100 + s[3] as int
  }

  /** The bytes `associate` writes at the start of the slot. */
  function Encode(h: Header): (s: seq<byte>)
    requires h.Named? ==> |h.name| < HEADER_MAX_FILENAME_SIZE
    ensures |s| == HEADER_CORPUS_SIZE
  {
    match h
    case Named(name, flags) => name + Zeros(HEADER_MAX_FILENAME_SIZE - |name|) + BigEndian(flags)
    case _ => Zeros(HEADER_CORPUS_SIZE)
  }

  /** The position of the first NUL. */
  function FirstZero(s: seq<byte>): (n: nat)
    ensures n <= |s| && (forall i :: 0 <= i < n ==> s[i] != 0) && (n < |s| ==> s[n] == 0)
  {
    if s == [] || s[0] == 0 then 0 else 1 + FirstZero(s[1..])
  }

  function Decode(header: seq<byte>): Recovered
    requires |header| == HEADER_CORPUS_SIZE
  {
    var flags := FromBigEndian(header[HEADER_MAX_FILENAME_SIZE..]);
    var field := header[..HEADER_MAX_FILENAME_SIZE];
    var end := FirstZero(field);
    if end == |field| then Invalid(NotTerminated)
    else if exists i :: end <= i < |field| && field[i] != 0 then Invalid(NonzeroPadding)
    else if end == 0 then (if flags != 0 then Invalid(UnnamedFlags) else Free)
    else if !Utf8(field[..end]) then Invalid(NotUtf8)
    else if PersistentKinds(flags) + TemporaryKinds(flags) != 1 then Invalid(BadKind)
    else if Has(flags, DELETEONCLOSE) then Free
    else if TemporaryKinds(flags) == 1 then Invalid(TemporaryKept)
    else Bound(field[..end])
  }

  /** `associated_filename` on the bytes of the whole slot. */
  function AssociatedFilename(file: seq<byte>): Recovered {
    if |file| == 0 then Free
    else if |file| < SECTOR_SIZE then
      (if exists i :: 0 <= i < |file| && file[i] != 0 then Invalid(ShorterThanHeader) else Free)
    else Decode(file[..HEADER_CORPUS_SIZE])
  }

  /** The bytes of a slot with header h and database content body. */
  function SlotBytes(h: Header, body: seq<byte>): seq<byte>
    requires h.Named? ==> |h.name| < HEADER_MAX_FILENAME_SIZE
  {
    if h.Short? then Zeros(h.size)
    else Encode(h) + Zeros(SECTOR_SIZE - HEADER_CORPUS_SIZE) + body
  }

  lemma BigEndianRoundTrip(x: Flags)
    ensures FromBigEndian(BigEndian(x)) == x
  {
    var y := x / 0x100;
    var z := y / 0x100;
    assert x == 0x100 * y + x % 0x100 && y == 0x100 * z + y % 0x100 && z == 0x100 * (z / 0x100) + z % 0x100;
    assert x / 0x1_0000 == z && x / 0x100_0000 == z / 0x100;
  }

  lemma BigEndianFixed(s: seq<byte>)
    requires |s| == 4
    ensures BigEndian(FromBigEndian(s)) == s
  {
    var a: int, b: int, c: int, d: int := s[0], s[1], s[2], s[3];
    var x: int := FromBigEndian(s);
    DivUnique(x, 0x100, 0x1_0000 * a + 0x100 * b + c, d);
    DivUnique(0x1_0000 * a + 0x100 * b + c, 0x100, 0x100 * a + b, c);
    DivUnique(x, 0x1_0000, 0x100 * a + b, 0x100 * c + d);
    DivUnique(0x100 * a + b, 0x100, a, b);
    DivUnique(x, 0x100_0000, a, 0x1_0000 * b + 0x100 * c + d);
  }

  lemma FirstZeroOfName(name: Name, pad: seq<byte>)
    requires 0 !in name && pad != [] && pad[0] == 0
    ensures FirstZero(name + pad) == |name|
  {
    var s := name + pad;
    assert s[|name|] == 0;
    assert forall i :: 0 <= i < |name| ==> s[i] == name[i] && name[i] in name;
  }

  /** Reading back what was written gives the meaning of the header, for every slot the
      pool writes and whatever database content follows. */
  lemma DecodeEncode(h: Header, body: seq<byte>)
    requires h.Named? ==> Storable(h.name) && Utf8(h.name)
    requires h.Short? ==> h.size < SECTOR_SIZE
    ensures AssociatedFilename(SlotBytes(h, body)) == Recover(h)
  {
    var file := SlotBytes(h, body);
    if !h.Short? {
      assert file[..HEADER_CORPUS_SIZE] == Encode(h);
      var header := Encode(h);
      var field := header[..HEADER_MAX_FILENAME_SIZE];
      match h
      case Named(name, flags) =>
        var pad := Zeros(HEADER_MAX_FILENAME_SIZE - |name|);
        assert field == name + pad;
        assert header[HEADER_MAX_FILENAME_SIZE..] == BigEndian(flags);
        BigEndianRoundTrip(flags);
        FirstZeroOfName(name, pad);
        assert field[..|name|] == name;
      case Blank =>
        assert FirstZero(field) == 0;
        assert header[HEADER_MAX_FILENAME_SIZE..] == BigEndian(0);
    }
  }

  /** The bytes of a slot give the name if bits 0x100 (main database), 0x800 (its journal),
      0x4000 (super-journal) and 0x80000 (write-ahead log) are one, no temporary kind is
      set and 0x8 (delete on close) is not. They give nothing for one kind with 0x8, and are
      refused in all other cases. */
  lemma RecoverableExactly(name: Name, flags: Flags, body: seq<byte>)
    requires Storable(name) && Utf8(name)
    ensures var read := AssociatedFilename(SlotBytes(Named(name, flags), body));
            var kept := flags / 0x100 % 2 + flags / 0x800 % 2 + flags / 0x4000 % 2 + flags / 0x80000 % 2;
            var passing := flags / 0x200 % 2 + flags / 0x400 % 2 + flags / 0x1000 % 2 + flags / 0x2000 % 2;
            && (read == Bound(name) <==> kept == 1 && passing == 0 && flags / 8 % 2 == 0)
            && (read == Free <==> kept + passing == 1 && flags / 8 % 2 == 1)
            && (read.Bound? ==> read == Bound(name))
            && (read.Invalid? <==> kept + passing != 1 || (passing == 1 && flags / 8 % 2 == 0))
            && (read.Invalid? <==> !Recoverable(flags))
  {
    hide Utf8, AssociatedFilename, SlotBytes;
    DecodeEncode(Named(name, flags), body);
  }

  /** What `OpenOptions` accepts, bit by bit: one of 0x1 and 0x2; 0x4 (create) only with
      0x2; 0x8 and 0x10 (exclusive) only with 0x4; at most one kind. */
  lemma OptionsExactly(flags: Flags)
    ensures OptionsOk(flags) <==>
            && (flags % 4 == 1 || flags % 4 == 2) && (flags / 4 % 2 == 1 ==> flags % 4 == 2)
            && (flags / 8 % 2 == 1 || flags / 16 % 2 == 1 ==> flags / 4 % 2 == 1)
            && flags / 0x100 % 2 + flags / 0x200 % 2 + flags / 0x400 % 2 + flags / 0x800 % 2
               + flags / 0x1000 % 2 + flags / 0x2000 % 2 + flags / 0x4000 % 2 + flags / 0x80000 % 2 <= 1
  {
    var low, high := flags % 4, flags / 4;
    assert flags == 4 * high + low;
    assert flags % 2 == low % 2 && flags / 2 % 2 == low / 2;
  }

  /** So every file that SQLite creates and does not want deleted on close, with a kind
      that outlives a connection, is found again. */
  lemma KindsAreFound(name: Name, flags: Flags)
    requires OptionsOk(flags) && flags / 8 % 2 == 0
    requires flags / 0x100 % 2 == 1 || flags / 0x800 % 2 == 1 || flags / 0x4000 % 2 == 1 || flags / 0x80000 % 2 == 1
    ensures Recover(Named(name, flags)) == Bound(name)
  {
  }

  /** A temporary file of a kind that SQLite opens with delete-on-close leaves nothing. */
  lemma TemporariesGo(name: Name, flags: Flags)
    requires OptionsOk(flags) && flags / 8 % 2 == 1
    requires flags / 0x200 % 2 == 1 || flags / 0x400 % 2 == 1 || flags / 0x1000 % 2 == 1 || flags / 0x2000 % 2 == 1
    ensures Recover(Named(name, flags)) == Free
  {
  }

  /** Where things are in the header: the name, NULs up to byte 512, and the flags as four
      bytes, most significant first. */
  lemma HeaderLayout(name: Name, flags: Flags)
    requires |name| < 512
    ensures var s := Encode(Named(name, flags));
            && |s| == 516 && s[..|name|] == name && (forall i :: |name| <= i < 512 ==> s[i] == 0)
            && flags == ((s[512] as int * 256 + s[513] as int) * 256 + s[514] as int) * 256 + s[515] as int
  {
    BigEndianRoundTrip(flags);
    assert Encode(Named(name, flags))[512..] == BigEndian(flags);
  }

  /** The other way round: bytes that decode to a name are those written for it, up to
      the flags kept with it. */
  lemma EncodeDecode(header: seq<byte>)
    requires |header| == HEADER_CORPUS_SIZE && Decode(header).Bound?
    ensures var name, flags := Decode(header).name, FromBigEndian(header[HEADER_MAX_FILENAME_SIZE..]);
            Storable(name) && Utf8(name) && Recoverable(flags) && header == Encode(Named(name, flags))
  {
    hide FromBigEndian, BigEndian;
    var field := header[..HEADER_MAX_FILENAME_SIZE];
    var end := FirstZero(field);
    var name, flags := field[..end], FromBigEndian(header[HEADER_MAX_FILENAME_SIZE..]);
    assert 0 !in name;
    assert field == name + Zeros(HEADER_MAX_FILENAME_SIZE - end);
    BigEndianFixed(header[HEADER_MAX_FILENAME_SIZE..]);
    assert header == field + header[HEADER_MAX_FILENAME_SIZE..];
  }

  /** A header that can be written, whole. */
  predicate Writable(h: Header) {
    !h.Short? && (h.Named? ==> Storable(h.name) && Utf8(h.name))
  }

  /** Nothing but what can be written is accepted, and it is accepted for what it is. */
  lemma DecodeExactly(header: seq<byte>)
    requires |header| == HEADER_CORPUS_SIZE
    ensures !Decode(header).Invalid? <==> exists h :: Writable(h) && header == Encode(h) && !Recover(h).Invalid?
    ensures forall h :: Writable(h) && header == Encode(h) ==> Decode(header) == Recover(h)
  {
    forall h | Writable(h) && header == Encode(h)
      ensures Decode(header) == Recover(h)
    {
      DecodeEncode(h, []);
      ContentFollows(h, []);
    }
    hide FromBigEndian, BigEndian, Utf8, Has, PersistentKinds, TemporaryKinds;
    var field := header[..HEADER_MAX_FILENAME_SIZE];
    var end := FirstZero(field);
    var name, flags := field[..end], FromBigEndian(header[HEADER_MAX_FILENAME_SIZE..]);
    if !Decode(header).Invalid? {
      assert field == name + Zeros(HEADER_MAX_FILENAME_SIZE - end);
      BigEndianFixed(header[HEADER_MAX_FILENAME_SIZE..]);
      assert header == field + header[HEADER_MAX_FILENAME_SIZE..];
      if end == 0 {
        NoFlags();
        assert header == Encode(Blank);
      } else {
        assert 0 !in name;
        assert header == Encode(Named(name, flags));
        assert Writable(Named(name, flags));
      }
    }
  }

  lemma NoFlags()
    ensures BigEndian(0) == Zeros(4)
  {
  }

  /** The content follows 4096 bytes of header region. */
  lemma ContentFollows(h: Header, body: seq<byte>)
    requires Writable(h)
    ensures |SlotBytes(h, body)| == 4096 + |body| && SlotBytes(h, body)[4096..] == body
    ensures SlotBytes(h, body)[..516] == Encode(h) && forall i :: 516 <= i < 4096 ==> SlotBytes(h, body)[i] == 0
  {
  }
}
