/** The partition table on the disk: the parser, the installer's writer, and that they agree. */
module GptDisk {
  import opened Bytes
  import opened Sectors
  import opened Drives
  import opened Gpt
  import opened Installer

  // ---- The parser ------------------------------------------------------------------------------------------

  /** `Broken` is a slice out of range, which stops the kernel. */
  datatype Result = NoTable | Broken | Found(parts: seq<Part>, guid: Guid)

  /** The used entries from slot `i` on. */
  function PartsFrom(buf: seq<byte>, size: nat, total: nat, i: nat): seq<Part>
    requires i <= total && size >= ENTRY_SIZE && total * size <= |buf|
    decreases total - i
  {
    if i == total then [] else
    SlotFits(total, size, i);
    match DecodePart(buf[i * size..i * size + size])
    case None => PartsFrom(buf, size, total, i + 1)
    case Some(p) => [p] + PartsFrom(buf, size, total, i + 1)
  }

  lemma SlotFits(total: nat, size: nat, i: nat)
    requires i < total
    ensures i * size + size <= total * size
  {
    Monotone(size, i + 1, total);
  }

  function SectorsFor(total: nat, size: nat): nat { Min((total * size + SECTOR - 1) / SECTOR, 33) }

  /** `parse_from_header`: a wrong entry checksum is not fatal. */
  function ParseFrom(disk: Disk, h: Header): (r: Result)
    requires Whole(disk)
  {
    if h.size < ENTRY_SIZE || h.size > SECTOR then NoTable else
    var total := Min(h.count, ENTRIES);
    var n := SectorsFor(total, h.size);
    if h.entriesLba + n > |disk| then NoTable else
    JoinLength(disk, h.entriesLba, n, SECTOR);
    if total * h.size > n * SECTOR then Broken
    else Found(PartsFrom(Join(disk, h.entriesLba, n), h.size, total, 0), h.guid)
  }

  function ParseBackup(disk: Disk, crc: seq<byte> -> u32): (r: Result)
    requires Whole(disk)
  {
    if |disk| <= 34 then NoTable else
    match DecodeHeader(disk[|disk| - 1][..HEADER_SIZE], crc)
    case Rejected => NoTable
    case Panics => Broken
    case Accepted(h) => ParseFrom(disk, h)
  }

  /** `parse` */
  function Parse(disk: Disk, crc: seq<byte> -> u32): (r: Result)
    requires Whole(disk)
  {
    if |disk| < 1 || disk[0][TYPE_AT] != PROTECTIVE || |disk| < 2 then NoTable else
    match DecodeHeader(disk[1][..HEADER_SIZE], crc)
    case Rejected => ParseBackup(disk, crc)
    case Panics => Broken
    case Accepted(h) => var r := ParseFrom(disk, h); if r.NoTable? then ParseBackup(disk, crc) else r
  }

  // ---- The installed table -----------------------------------------------------------------------------------

  /** Disk size, size of the system partition, and the three GUIDs. */
  datatype Layout = Layout(sectors: nat, espSectors: nat, diskGuid: Guid, espGuid: Guid, rootGuid: Guid)

  const ESP_START: nat := 2048

  function EspEnd(l: Layout): int { ESP_START + l.espSectors - 1 }

  function RootStart(l: Layout): int { EspEnd(l) + 1 }

  function RootEnd(l: Layout): int { if l.sectors >= 34 then l.sectors - 34 else 0 }

  /** Both partitions have sectors, on a disk of 64-bit size. */
  ghost predicate Sensible(l: Layout) {
    l.espSectors >= 1 && RootStart(l) <= RootEnd(l) && l.sectors <= LBA64
  }

  function EspPart(l: Layout): Part
    requires Sensible(l)
  {
    Part(ESP_GUID, l.espGuid, ESP_START, EspEnd(l), 0, ESP_NAME)
  }

  function RootPart(l: Layout): Part
    requires Sensible(l)
  {
    Part(LINUX_GUID, l.rootGuid, RootStart(l), RootEnd(l), 0, ROOT_NAME)
  }

  function EspEntry(l: Layout): (r: seq<byte>)
    requires Sensible(l)
    ensures |r| == ENTRY_SIZE
  {
    EncodePart(ESP_GUID, l.espGuid, ESP_START, EspEnd(l), 0, ESP_NAME)
  }

  function RootEntry(l: Layout): (r: seq<byte>)
    requires Sensible(l)
    ensures |r| == ENTRY_SIZE
  {
    EncodePart(LINUX_GUID, l.rootGuid, RootStart(l), RootEnd(l), 0, ROOT_NAME)
  }

  function Entries(l: Layout): (r: seq<byte>)
    requires Sensible(l)
    ensures |r| == ENTRIES * ENTRY_SIZE == ENTRY_SECTORS * SECTOR
  {
    EspEntry(l) + RootEntry(l) + Zeros(ENTRIES * ENTRY_SIZE - 2 * ENTRY_SIZE)
  }

  function Primary(l: Layout, crc: seq<byte> -> u32): Header
    requires Sensible(l)
  {
    Header(1, l.sectors - 1, 34, l.sectors - 34, l.diskGuid, 2, ENTRIES, ENTRY_SIZE, crc(Entries(l)))
  }

  function Backup(l: Layout, crc: seq<byte> -> u32): Header
    requires Sensible(l)
  {
    Header(l.sectors - 1, 1, 34, l.sectors - 34, l.diskGuid, l.sectors - 33, ENTRIES, ENTRY_SIZE, crc(Entries(l)))
  }

  ghost predicate HasHeader(disk: Disk, lba: nat, h: Header, crc: seq<byte> -> u32) {
    lba < |disk| && |disk[lba]| == SECTOR && disk[lba][..HEADER_SIZE] == EncodeHeader(h, HeaderCrc(h, crc))
  }

  ghost predicate HasEntries(disk: Disk, lba: nat, l: Layout)
    requires Sensible(l)
  {
    lba + ENTRY_SECTORS <= |disk| && Join(disk, lba, ENTRY_SECTORS) == Entries(l)
  }

  /** What the parser makes of the entries. */
  lemma {:induction false} NoMoreParts(l: Layout, i: nat)
    requires Sensible(l) && 2 <= i <= ENTRIES
    ensures PartsFrom(Entries(l), ENTRY_SIZE, ENTRIES, i) == []
    decreases ENTRIES - i
  {
    if i < ENTRIES {
      NoMoreParts(l, i + 1);
      var e := Entries(l)[i * ENTRY_SIZE..i * ENTRY_SIZE + ENTRY_SIZE];
      assert e[0..16] == Zeros(16);
    }
  }

  lemma SlotHolds(l: Layout)
    requires Sensible(l)
    ensures Entries(l)[0..ENTRY_SIZE] == EspEntry(l) && Entries(l)[ENTRY_SIZE..2 * ENTRY_SIZE] == RootEntry(l)
  {
  }

  lemma EspDecodes(l: Layout)
    requires Sensible(l)
    ensures DecodePart(EspEntry(l)) == Some(EspPart(l)) && DecodePart(RootEntry(l)) == Some(RootPart(l))
  {
    assert ESP_GUID[0] != 0 && LINUX_GUID[0] != 0;
    PartRoundTrip(ESP_GUID, l.espGuid, ESP_START, EspEnd(l), 0, ESP_NAME);
    PartRoundTrip(LINUX_GUID, l.rootGuid, RootStart(l), RootEnd(l), 0, ROOT_NAME);
  }

  lemma NextPart(buf: seq<byte>, size: nat, total: nat, i: nat, p: Part)
    requires i < total && size >= ENTRY_SIZE && total * size <= |buf| && i * size + size <= |buf|
    requires DecodePart(buf[i * size..i * size + size]) == Some(p)
    ensures PartsFrom(buf, size, total, i) == [p] + PartsFrom(buf, size, total, i + 1)
  {
  }

  lemma TwoParts(l: Layout)
    requires Sensible(l)
    ensures PartsFrom(Entries(l), ENTRY_SIZE, ENTRIES, 0) == [EspPart(l), RootPart(l)]
  {
    SlotHolds(l);
    EspDecodes(l);
    NextPart(Entries(l), ENTRY_SIZE, ENTRIES, 0, EspPart(l));
    NextPart(Entries(l), ENTRY_SIZE, ENTRIES, 1, RootPart(l));
    NoMoreParts(l, 2);
  }

  lemma EntriesParse(disk: Disk, l: Layout, h: Header)
    requires Whole(disk) && Sensible(l) && HasEntries(disk, h.entriesLba, l) && h.size == ENTRY_SIZE && h.count == ENTRIES
    ensures ParseFrom(disk, h) == Found([EspPart(l), RootPart(l)], h.guid)
  {
    assert SectorsFor(ENTRIES, ENTRY_SIZE) == ENTRY_SECTORS;
    TwoParts(l);
  }

  /** Parser and installer agree: the parser finds exactly the two partitions that were written. */
  lemma PrimaryParses(disk: Disk, l: Layout, crc: seq<byte> -> u32)
    requires Whole(disk) && Sensible(l) && |disk| >= 2 && disk[0][TYPE_AT] == PROTECTIVE
    requires HasHeader(disk, 1, Primary(l, crc), crc) && HasEntries(disk, 2, l)
    ensures Parse(disk, crc) == Found([EspPart(l), RootPart(l)], l.diskGuid)
  {
    HeaderRoundTrip(Primary(l, crc), crc);
    EntriesParse(disk, l, Primary(l, crc));
  }

  lemma BackupOnly(disk: Disk, l: Layout, crc: seq<byte> -> u32)
    requires Whole(disk) && Sensible(l) && |disk| == l.sectors
    requires HasHeader(disk, l.sectors - 1, Backup(l, crc), crc) && HasEntries(disk, l.sectors - 33, l)
    ensures ParseBackup(disk, crc) == Found([EspPart(l), RootPart(l)], l.diskGuid)
  {
    BackupAccepts(disk, l, Backup(l, crc), crc);
  }

  lemma BackupAccepts(disk: Disk, l: Layout, h: Header, crc: seq<byte> -> u32)
    requires Whole(disk) && |disk| > 34 && Sensible(l) && h.size == ENTRY_SIZE && h.count == ENTRIES
    requires HasHeader(disk, |disk| - 1, h, crc) && HasEntries(disk, h.entriesLba, l)
    ensures ParseBackup(disk, crc) == Found([EspPart(l), RootPart(l)], h.guid)
  {
    HeaderRoundTrip(h, crc);
    EntriesParse(disk, l, h);
  }

  lemma FallsBack(disk: Disk, crc: seq<byte> -> u32)
    requires Whole(disk) && |disk| >= 2 && disk[0][TYPE_AT] == PROTECTIVE
    requires DecodeHeader(disk[1][..HEADER_SIZE], crc).Rejected?
    ensures Parse(disk, crc) == ParseBackup(disk, crc)
  {
  }

  /** If the primary header is rejected, whatever it holds, the backup gives the same list. */
  lemma BackupParses(disk: Disk, l: Layout, crc: seq<byte> -> u32)
    requires Whole(disk) && Sensible(l) && |disk| == l.sectors && disk[0][TYPE_AT] == PROTECTIVE
    requires DecodeHeader(disk[1][..HEADER_SIZE], crc).Rejected?
    requires HasHeader(disk, l.sectors - 1, Backup(l, crc), crc) && HasEntries(disk, l.sectors - 33, l)
    ensures Parse(disk, crc) == Found([EspPart(l), RootPart(l)], l.diskGuid)
  {
    BackupOnly(disk, l, crc);
    FallsBack(disk, crc);
  }

  /** No structure or partition overlaps another: sector `k` belongs to at most one of them. */
  function Uses(l: Layout, k: nat): nat {
    (if k == 0 then 1 else 0) + (if k == 1 then 1 else 0) + (if 2 <= k < 2 + ENTRY_SECTORS then 1 else 0)
    + (if ESP_START <= k <= EspEnd(l) then 1 else 0) + (if RootStart(l) <= k <= RootEnd(l) then 1 else 0)
    + (if l.sectors - 33 <= k < l.sectors - 1 then 1 else 0) + (if k == l.sectors - 1 then 1 else 0)
  }

  lemma NothingOverlaps(l: Layout, k: nat)
    requires Sensible(l)
    ensures Uses(l, k) <= 1 && (k >= l.sectors ==> Uses(l, k) == 0)
    ensures 34 <= ESP_START && RootEnd(l) <= l.sectors - 34
  {
  }

  // ---- The parser's loops ----------------------------------------------------------------------------------------

  lemma OneMore(parts: seq<Part>, p: Part, rest: seq<Part>)
    ensures parts + ([p] + rest) == parts + [p] + rest
  {
  }

  method CollectParts(buf: seq<byte>, size: nat, total: nat) returns (parts: seq<Part>)
    requires size >= ENTRY_SIZE && total * size <= |buf|
    ensures parts == PartsFrom(buf, size, total, 0)
  {
    parts := [];
    for i := 0 to total
      invariant parts + PartsFrom(buf, size, total, i) == PartsFrom(buf, size, total, 0)
    {
      SlotFits(total, size, i);
      var p := DecodePart(buf[i * size..i * size + size]);
      if p.Some? {
        OneMore(parts, p.value, PartsFrom(buf, size, total, i + 1));
        parts := parts + [p.value];
      }
    }
  }

  method ParseEntries(disk: Disk, h: Header) returns (r: Result)
    requires Whole(disk)
    ensures r == ParseFrom(disk, h)
  {
    if h.size < ENTRY_SIZE || h.size > SECTOR { return NoTable; }
    var total := Min(h.count, ENTRIES);
    var n := SectorsFor(total, h.size);
    var buf := Fetch(disk, h.entriesLba, n);
    if buf.None? { return NoTable; }
    JoinLength(disk, h.entriesLba, n, SECTOR);
    if total * h.size > |buf.value| { return Broken; }
    var parts := CollectParts(buf.value, h.size, total);
    r := Found(parts, h.guid);
  }

  method TryHeader(disk: Disk, lba: nat, crc: seq<byte> -> u32) returns (r: HeaderResult)
    requires Whole(disk) && lba < |disk|
    ensures r == DecodeHeader(disk[lba][..HEADER_SIZE], crc)
  {
    var sector := Fetch(disk, lba, 1);
    assert Join(disk, lba, 1) == Join(disk, lba, 0) + disk[lba] == disk[lba];
    r := DecodeHeader(sector.value[..HEADER_SIZE], crc);
  }

  /** `parse`: the primary header, and the backup if nothing comes of it. */
  method ParseTable(disk: Disk, crc: seq<byte> -> u32) returns (r: Result)
    requires Whole(disk)
    ensures r == Parse(disk, crc)
  {
    if |disk| < 1 || disk[0][TYPE_AT] != PROTECTIVE || |disk| < 2 { return NoTable; }
    var h := TryHeader(disk, 1, crc);
    if h.Panics? { return Broken; }
    if h.Accepted? {
      r := ParseEntries(disk, h.header);
      if !r.NoTable? { return; }
    }
    if |disk| <= 34 { return NoTable; }
    var b := TryHeader(disk, |disk| - 1, crc);
    match b
    case Rejected => r := NoTable;
    case Panics => r := Broken;
    case Accepted(hdr) => r := ParseEntries(disk, hdr);
  }

  // ---- The installer's writes ---------------------------------------------------------------------------------------

  /** Copy the next field behind those already in place. */
  method Field(buf: array<byte>, at: nat, data: seq<byte>, ghost out: seq<byte>)
    requires at == |out| && at + |data| <= buf.Length && buf[..at] == out
    modifies buf
    ensures buf[..at + |data|] == out + data
    ensures forall i :: at + |data| <= i < buf.Length ==> buf[i] == old(buf[i])
  {
    CopyIn(buf, at, data);
  }

  /** The name field: one code unit after the other over zeros. */
  method NameField(buf: array<byte>, at: nat, name: seq<u16>, ghost out: seq<byte>)
    requires at == |out| && at + NAME_BYTES <= buf.Length && buf[..at] == out && 2 * |name| <= NAME_BYTES
    requires forall i :: at <= i < buf.Length ==> buf[i] == 0
    modifies buf
    ensures buf[..at + NAME_BYTES] == out + NameBytes(name)
    ensures forall i :: at + NAME_BYTES <= i < buf.Length ==> buf[i] == 0
  {
    ghost var want := NameBytes(name);
    for i := 0 to |name|
      invariant buf[..at] == out
      invariant forall j :: 0 <= j < 2 * i ==> buf[at + j] == want[j]
      invariant forall j :: at + 2 * i <= j < buf.Length ==> buf[j] == 0
    {
      buf[at + 2 * i], buf[at + 2 * i + 1] := name[i] % 256, name[i] / 256;
    }
    forall j | 0 <= j < NAME_BYTES ensures buf[at + j] == want[j] {
    }
    assert buf[..at + NAME_BYTES] == out + want;
  }

  method EntryFields(buf: array<byte>, at: nat, kind: Guid, guid: Guid, first: u64, last: u64, name: seq<u16>, ghost out: seq<byte>)
    requires at == |out| && at + ENTRY_SIZE <= buf.Length && buf[..at] == out && 2 * |name| <= NAME_BYTES
    requires forall i :: at <= i < buf.Length ==> buf[i] == 0
    modifies buf
    ensures buf[..at + ENTRY_SIZE] == out + EncodePart(kind, guid, first, last, 0, name)
    ensures forall i :: at + ENTRY_SIZE <= i < buf.Length ==> buf[i] == 0
  {
    Field(buf, at, kind, out);
    Field(buf, at + 16, guid, out + kind);
    Field(buf, at + 32, ToLe(8, first), out + kind + guid);
    Field(buf, at + 40, ToLe(8, last), out + kind + guid + ToLe(8, first));
    ghost var head := out + kind + guid + ToLe(8, first) + ToLe(8, last);
    Field(buf, at + 48, ToLe(8, 0), head);
    NameField(buf, at + 56, name, head + ToLe(8, 0));
    assert head + ToLe(8, 0) + NameBytes(name) == out + EncodePart(kind, guid, first, last, 0, name);
  }

  method BuildEntries(l: Layout) returns (r: seq<byte>)
    requires Sensible(l)
    ensures r == Entries(l)
  {
    var buf := new byte[ENTRIES * ENTRY_SIZE](_ => 0);
    EntryFields(buf, 0, ESP_GUID, l.espGuid, ESP_START, EspEnd(l), ESP_NAME, []);
    assert [] + EspEntry(l) == EspEntry(l);
    EntryFields(buf, ENTRY_SIZE, LINUX_GUID, l.rootGuid, RootStart(l), RootEnd(l), ROOT_NAME, EspEntry(l));
    assert buf[..2 * ENTRY_SIZE] == EspEntry(l) + RootEntry(l);
    assert buf[2 * ENTRY_SIZE..] == Zeros(ENTRIES * ENTRY_SIZE - 2 * ENTRY_SIZE);
    assert buf[..] == buf[..2 * ENTRY_SIZE] + buf[2 * ENTRY_SIZE..];
    r := buf[..];
  }

  /** `w32`, `w64` and slice copies of the header in the order of its fields, with a zero checksum. */
  method HeaderFields(buf: array<byte>, h: Header)
    requires buf.Length == SECTOR
    modifies buf
    ensures buf[..HEADER_SIZE] == EncodeHeader(h, 0)
  {
    HeadFieldsOf(buf);
    PlaceFieldsOf(buf, h, HeadPart(0));
    TailFieldsOf(buf, h, HeadPart(0) + PlacePart(h));
  }

  method HeadFieldsOf(buf: array<byte>)
    requires buf.Length == SECTOR
    modifies buf
    ensures buf[..24] == HeadPart(0)
  {
    Field(buf, 0, ToLe(8, SIGNATURE), []);
    ghost var a := [] + ToLe(8, SIGNATURE);
    Field(buf, 8, ToLe(4, REVISION), a);
    Field(buf, 12, ToLe(4, HEADER_SIZE), a + ToLe(4, REVISION));
    Field(buf, 16, ToLe(4, 0), a + ToLe(4, REVISION) + ToLe(4, HEADER_SIZE));
    Field(buf, 20, ToLe(4, 0), a + ToLe(4, REVISION) + ToLe(4, HEADER_SIZE) + ToLe(4, 0));
    assert a == ToLe(8, SIGNATURE);
  }

  method PlaceFieldsOf(buf: array<byte>, h: Header, ghost out: seq<byte>)
    requires buf.Length == SECTOR && |out| == 24 && buf[..24] == out
    modifies buf
    ensures buf[..72] == out + PlacePart(h)
  {
    Field(buf, 24, ToLe(8, h.my), out);
    Field(buf, 32, ToLe(8, h.alt), out + ToLe(8, h.my));
    ghost var a := out + ToLe(8, h.my) + ToLe(8, h.alt);
    Field(buf, 40, ToLe(8, h.first), a);
    Field(buf, 48, ToLe(8, h.last), a + ToLe(8, h.first));
    Field(buf, 56, h.guid, a + ToLe(8, h.first) + ToLe(8, h.last));
    assert a + ToLe(8, h.first) + ToLe(8, h.last) + h.guid == out + PlacePart(h);
  }

  method TailFieldsOf(buf: array<byte>, h: Header, ghost out: seq<byte>)
    requires buf.Length == SECTOR && |out| == 72 && buf[..72] == out
    modifies buf
    ensures buf[..HEADER_SIZE] == out + TailPart(h)
  {
    Field(buf, 72, ToLe(8, h.entriesLba), out);
    ghost var a := out + ToLe(8, h.entriesLba);
    Field(buf, 80, ToLe(4, h.count), a);
    Field(buf, 84, ToLe(4, h.size), a + ToLe(4, h.count));
    Field(buf, 88, ToLe(4, h.entriesCrc), a + ToLe(4, h.count) + ToLe(4, h.size));
    assert a + ToLe(4, h.count) + ToLe(4, h.size) + ToLe(4, h.entriesCrc) == out + TailPart(h);
  }

  lemma CrcPatched(h: Header, c: u32, c': u32)
    ensures Patch(EncodeHeader(h, c), 16, ToLe(4, c')) == EncodeHeader(h, c')
  {
    var a := ToLe(8, SIGNATURE) + ToLe(4, REVISION) + ToLe(4, HEADER_SIZE);
    var z := ToLe(4, 0) + PlacePart(h) + TailPart(h);
    assert EncodeHeader(h, c) == a + ToLe(4, c) + z;
    assert EncodeHeader(h, c') == a + ToLe(4, c') + z;
  }

  lemma PlacePatched(h: Header, c: u32, my: u64, alt: u64)
    ensures Patch(Patch(EncodeHeader(h, c), 24, ToLe(8, my)), 32, ToLe(8, alt)) == EncodeHeader(h.(my := my, alt := alt), c)
  {
    var z := ToLe(8, h.first) + ToLe(8, h.last) + h.guid + TailPart(h);
    var h' := h.(my := my, alt := alt);
    assert EncodeHeader(h, c) == HeadPart(c) + ToLe(8, h.my) + ToLe(8, h.alt) + z;
    assert EncodeHeader(h', c) == HeadPart(c) + ToLe(8, my) + ToLe(8, alt) + z;
  }

  lemma TailPatched(h: Header, c: u32, lba: u64)
    ensures Patch(EncodeHeader(h, c), 72, ToLe(8, lba)) == EncodeHeader(h.(entriesLba := lba), c)
  {
    var a := HeadPart(c) + PlacePart(h);
    var z := ToLe(4, h.count) + ToLe(4, h.size) + ToLe(4, h.entriesCrc);
    assert EncodeHeader(h, c) == a + ToLe(8, h.entriesLba) + z;
    assert EncodeHeader(h.(entriesLba := lba), c) == a + ToLe(8, lba) + z;
  }

  /** Patch the first 92 bytes of a sector. */
  method PatchIn(buf: array<byte>, at: nat, data: seq<byte>)
    requires buf.Length == SECTOR && at + |data| <= HEADER_SIZE
    modifies buf
    ensures buf[..HEADER_SIZE] == Patch(old(buf[..HEADER_SIZE]), at, data)
  {
    CopyIn(buf, at, data);
  }

  method StampCrc(buf: array<byte>, h: Header, crc: seq<byte> -> u32)
    requires buf.Length == SECTOR && buf[..HEADER_SIZE] == EncodeHeader(h, 0)
    modifies buf
    ensures buf[..HEADER_SIZE] == EncodeHeader(h, HeaderCrc(h, crc))
  {
    var c := crc(buf[..HEADER_SIZE]);
    PatchIn(buf, 16, ToLe(4, c));
    CrcPatched(h, 0, c);
  }

  /** Turn the primary header into the backup: checksum zeroed, places swapped, entries elsewhere. */
  method TurnIntoBackup(buf: array<byte>, h: Header, c: u32, lba: u64)
    requires buf.Length == SECTOR && buf[..HEADER_SIZE] == EncodeHeader(h, c)
    modifies buf
    ensures buf[..HEADER_SIZE] == EncodeHeader(h.(my := h.alt, alt := h.my, entriesLba := lba), 0)
  {
    PatchIn(buf, 16, ToLe(4, 0));
    CrcPatched(h, c, 0);
    PatchIn(buf, 24, ToLe(8, h.alt));
    PatchIn(buf, 32, ToLe(8, h.my));
    PlacePatched(h, 0, h.alt, h.my);
    PatchIn(buf, 72, ToLe(8, lba));
    TailPatched(h.(my := h.alt, alt := h.my), 0, lba);
  }
}
