/** The partition table as the installer writes it and as the GPT parser reads it. The checksum is
    any function of bytes: both sides use the same one. */
module Gpt {
  import opened Bytes
  import opened Sectors
  import opened Drives

  type Guid = g: seq<byte> | |g| == 16 witness Zeros(16)

  const SIGNATURE: u64 := 0x5452_4150_2049_4645
  const REVISION: u32 := 0x0001_0000
  const HEADER_SIZE: nat := 92
  const ENTRY_SIZE: nat := 128
  const ENTRIES: nat := 128
  const ENTRY_SECTORS: nat := 32
  const NAME_BYTES: nat := 72
  const PROTECTIVE: byte := 0xEE
  const TYPE_AT: nat := 450

  const ESP_GUID: Guid := [0x28, 0x73, 0x2A, 0xC1, 0x1F, 0xF8, 0xD2, 0x11, 0xBA, 0x4B, 0x00, 0xA0, 0xC9, 0x3E, 0xC9, 0x3B]
  const LINUX_GUID: Guid := [0xAF, 0x3D, 0xC6, 0x0F, 0x83, 0x84, 0x72, 0x47, 0x8E, 0x79, 0x3D, 0x69, 0xD8, 0x47, 0x7D, 0xE4]

  /** "EFI System" and "AETERNA" */
  const ESP_NAME: seq<u16> := [0x45, 0x46, 0x49, 0x20, 0x53, 0x79, 0x73, 0x74, 0x65, 0x6D]
  const ROOT_NAME: seq<u16> := [0x41, 0x45, 0x54, 0x45, 0x52, 0x4E, 0x41]

  // ---- Entries ----------------------------------------------------------------------------------------

  datatype Part = Part(kind: Guid, guid: Guid, first: u64, last: u64, attrs: u64, name: seq<nat>)

  /** Two bytes per code unit, padded with zeros. */
  function NameBytes(name: seq<u16>): (r: seq<byte>)
    requires 2 * |name| <= NAME_BYTES
    ensures |r| == NAME_BYTES
  {
    seq(NAME_BYTES, i requires 0 <= i < NAME_BYTES =>
      if i / 2 < |name| then (if i % 2 == 0 then name[i / 2] % 256 else name[i / 2] / 256) else 0)
  }

  function EncodePart(kind: Guid, guid: Guid, first: u64, last: u64, attrs: u64, name: seq<u16>): (r: seq<byte>)
    requires 2 * |name| <= NAME_BYTES
    ensures |r| == ENTRY_SIZE
  {
    kind + guid + ToLe(8, first) + ToLe(8, last) + ToLe(8, attrs) + NameBytes(name)
  }

  /** A code unit as a character: surrogates become question marks. */
  function CharOf(code: u16): nat { if 0xD800 <= code <= 0xDFFF then 0x3F else code }

  /** `utf16le_to_string` from byte `i` on: stops at a zero unit or at the end. */
  function DecodeName(raw: seq<byte>, i: nat): seq<nat>
    requires i <= |raw|
    decreases |raw| - i
  {
    if i + 1 >= |raw| then [] else
    var code := raw[i + 1] as int * 256 + raw[i];
    if code == 0 then [] else [CharOf(code)] + DecodeName(raw, i + 2)
  }

  /** One entry; `None` for an empty slot. */
  function DecodePart(e: seq<byte>): Option<Part>
    requires |e| >= ENTRY_SIZE
  {
    if e[0..16] == Zeros(16) then None
    else Some(Part(e[0..16], e[16..32], FromLe64(e[32..40]), FromLe64(e[40..48]), FromLe64(e[48..56]), DecodeName(e[56..128], 0)))
  }

  /** Plain characters: neither zero nor a surrogate. */
  ghost predicate Plain(name: seq<u16>) { forall i :: 0 <= i < |name| ==> name[i] != 0 && !(0xD800 <= name[i] <= 0xDFFF) }

  lemma {:induction false} NameRoundTrip(name: seq<u16>, k: nat)
    requires 2 * |name| <= NAME_BYTES && Plain(name) && k <= |name|
    ensures DecodeName(NameBytes(name), 2 * k) == name[k..]
    decreases |name| - k
  {
    var raw := NameBytes(name);
    if k < |name| {
      NameRoundTrip(name, k + 1);
      assert raw[2 * k] == name[k] % 256 && raw[2 * k + 1] == name[k] / 256;
      assert name[k..] == [name[k]] + name[k + 1..];
    }
  }

  lemma PartRoundTrip(kind: Guid, guid: Guid, first: u64, last: u64, attrs: u64, name: seq<u16>)
    requires 2 * |name| <= NAME_BYTES && Plain(name) && kind != Zeros(16)
    ensures DecodePart(EncodePart(kind, guid, first, last, attrs, name)) == Some(Part(kind, guid, first, last, attrs, name))
  {
    var e := EncodePart(kind, guid, first, last, attrs, name);
    assert e[0..16] == kind && e[16..32] == guid && e[56..128] == NameBytes(name);
    assert e[32..40] == ToLe(8, first) && e[40..48] == ToLe(8, last) && e[48..56] == ToLe(8, attrs);
    LeRoundTrip64(first);
    LeRoundTrip64(last);
    LeRoundTrip64(attrs);
    NameRoundTrip(name, 0);
  }

  // ---- Headers --------------------------------------------------------------------------------------------

  datatype Header = Header(my: u64, alt: u64, first: u64, last: u64, guid: Guid, entriesLba: u64,
                           count: u32, size: u32, entriesCrc: u32)

  /** The header with a given checksum in its field. */
  function EncodeHeader(h: Header, crc: u32): (r: seq<byte>)
    ensures |r| == HEADER_SIZE
  {
    HeadPart(crc) + PlacePart(h) + TailPart(h)
  }

  /** Signature, revision, size, checksum and a reserved field. */
  function HeadPart(crc: u32): (r: seq<byte>)
    ensures |r| == 24
  {
    ToLe(8, SIGNATURE) + ToLe(4, REVISION) + ToLe(4, HEADER_SIZE) + ToLe(4, crc) + ToLe(4, 0)
  }

  /** The two header places, the usable range and the disk GUID. */
  function PlacePart(h: Header): (r: seq<byte>)
    ensures |r| == 48
  {
    ToLe(8, h.my) + ToLe(8, h.alt) + ToLe(8, h.first) + ToLe(8, h.last) + h.guid
  }

  /** Where the entries are, how many, how large, and their checksum. */
  function TailPart(h: Header): (r: seq<byte>)
    ensures |r| == 20
  {
    ToLe(8, h.entriesLba) + ToLe(4, h.count) + ToLe(4, h.size) + ToLe(4, h.entriesCrc)
  }

  /** The checksum covers the header with a zero checksum field. */
  function HeaderCrc(h: Header, crc: seq<byte> -> u32): u32 { crc(EncodeHeader(h, 0)) }

  datatype HeaderResult = Rejected | Panics | Accepted(header: Header)

  /** `parse_gpt_header` on the first 92 bytes of a sector; a declared size above 92 reaches past them. */
  function DecodeHeader(b: seq<byte>, crc: seq<byte> -> u32): HeaderResult
    requires |b| == HEADER_SIZE
  {
    if FromLe64(b[0..8]) != SIGNATURE then Rejected else
    var size := FromLe32(b[12..16]);
    if size < HEADER_SIZE then Rejected
    else if size > HEADER_SIZE then Panics
    else if crc(Patch(b, 16, Zeros(4))) != FromLe32(b[16..20]) then Rejected
    else Accepted(Header(FromLe64(b[24..32]), FromLe64(b[32..40]), FromLe64(b[40..48]), FromLe64(b[48..56]), b[56..72],
                         FromLe64(b[72..80]), FromLe32(b[80..84]), FromLe32(b[84..88]), FromLe32(b[88..92])))
  }

  lemma HeadFields(b: seq<byte>, c: u32)
    requires |b| == HEADER_SIZE && b[0..24] == HeadPart(c)
    ensures FromLe64(b[0..8]) == SIGNATURE && FromLe32(b[12..16]) == HEADER_SIZE && FromLe32(b[16..20]) == c
  {
    HoldsFive(b, 0, ToLe(8, SIGNATURE), ToLe(4, REVISION), ToLe(4, HEADER_SIZE), ToLe(4, c), ToLe(4, 0));
    LeRoundTrip64(SIGNATURE);
    LeRoundTrip32(HEADER_SIZE);
    LeRoundTrip32(c);
  }

  lemma PlaceFields(b: seq<byte>, h: Header)
    requires |b| == HEADER_SIZE && b[24..72] == PlacePart(h)
    ensures FromLe64(b[24..32]) == h.my && FromLe64(b[32..40]) == h.alt && FromLe64(b[40..48]) == h.first
    ensures FromLe64(b[48..56]) == h.last && b[56..72] == h.guid
  {
    HoldsFive(b, 24, ToLe(8, h.my), ToLe(8, h.alt), ToLe(8, h.first), ToLe(8, h.last), h.guid);
    LeRoundTrip64(h.my);
    LeRoundTrip64(h.alt);
    LeRoundTrip64(h.first);
    LeRoundTrip64(h.last);
  }

  lemma TailFields(b: seq<byte>, h: Header)
    requires |b| == HEADER_SIZE && b[72..92] == TailPart(h)
    ensures FromLe64(b[72..80]) == h.entriesLba && FromLe32(b[80..84]) == h.count
    ensures FromLe32(b[84..88]) == h.size && FromLe32(b[88..92]) == h.entriesCrc
  {
    HoldsParts(b, 72, ToLe(8, h.entriesLba) + ToLe(4, h.count) + ToLe(4, h.size), ToLe(4, h.entriesCrc));
    HoldsThree(b, 72, ToLe(8, h.entriesLba), ToLe(4, h.count), ToLe(4, h.size));
    LeRoundTrip64(h.entriesLba);
    LeRoundTrip32(h.count);
    LeRoundTrip32(h.size);
    LeRoundTrip32(h.entriesCrc);
  }

  /** Zeroing the checksum field of a stored header gives what the checksum was computed over. */
  lemma ZeroedCrc(h: Header, c: u32)
    ensures Patch(EncodeHeader(h, c), 16, Zeros(4)) == EncodeHeader(h, 0)
  {
    ToLeZero(4);
    var a := ToLe(8, SIGNATURE) + ToLe(4, REVISION) + ToLe(4, HEADER_SIZE);
    var z := ToLe(4, 0) + PlacePart(h) + TailPart(h);
    assert EncodeHeader(h, c) == a + ToLe(4, c) + z;
    assert EncodeHeader(h, 0) == a + ToLe(4, 0) + z;
  }

  lemma HeaderRoundTrip(h: Header, crc: seq<byte> -> u32)
    ensures DecodeHeader(EncodeHeader(h, HeaderCrc(h, crc)), crc) == Accepted(h)
  {
    var c := HeaderCrc(h, crc);
    var b := EncodeHeader(h, c);
    assert b[0..24] == HeadPart(c) && b[24..72] == PlacePart(h) && b[72..92] == TailPart(h);
    HeadFields(b, c);
    PlaceFields(b, h);
    TailFields(b, h);
    ZeroedCrc(h, c);
  }
}
