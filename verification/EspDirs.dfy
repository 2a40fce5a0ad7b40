/** Directory sectors of the system partition, and a reader that finds files by path. */
module EspDirs {
  import opened Bytes
  import opened Sectors
  import opened Drives
  import opened Fat32

  // ---- Directory entries -----------------------------------------------------------------------------

  const ATTR_LABEL: byte := 0x08
  const ATTR_LFN: byte := 0x0F
  const ATTR_DIR: byte := 0x10
  const ATTR_FILE: byte := 0x20

  type Name11 = n: seq<byte> | |n| == 11 witness Zeros(11)

  /** `dir_ent` */
  function PutItem(d: seq<byte>, off: nat, name: Name11, attr: byte, c: u32, size: u32): (r: seq<byte>)
    requires off + 32 <= |d|
    ensures |r| == |d|
  {
    var d1 := Patch(Patch(d, off, name), off + 11, [attr]);
    Patch(Patch(Patch(d1, off + 20, ToLe(2, c / 0x1_0000)), off + 26, ToLe(2, c % 0x1_0000)), off + 28, ToLe(4, size))
  }

  function NameAt(d: seq<byte>, off: nat): Name11
    requires off + 32 <= |d|
  {
    d[off..off + 11]
  }

  function ClusterAt(d: seq<byte>, off: nat): nat
    requires off + 32 <= |d|
  {
    0x1_0000 * FromLe16(d[off + 20..off + 22]) + FromLe16(d[off + 26..off + 28])
  }

  function SizeAt(d: seq<byte>, off: nat): nat
    requires off + 32 <= |d|
  {
    FromLe32(d[off + 28..off + 32])
  }

  /** The entry at `off` says this. */
  ghost predicate Says(d: seq<byte>, off: nat, name: Name11, attr: byte, c: u32, size: u32) {
    off + 32 <= |d| && NameAt(d, off) == name && d[off + 11] == attr && ClusterAt(d, off) == c && SizeAt(d, off) == size
  }

  /** What is stored in an entry is read from it, and the rest of the directory is kept. */
  lemma ItemStored(d: seq<byte>, off: nat, name: Name11, attr: byte, c: u32, size: u32)
    requires off + 32 <= |d|
    ensures var r := PutItem(d, off, name, attr, c, size);
            Says(r, off, name, attr, c, size) && forall i :: 0 <= i < |d| && !(off <= i < off + 32) ==> r[i] == d[i]
  {
    var r := PutItem(d, off, name, attr, c, size);
    LeRoundTrip16(c / 0x1_0000);
    LeRoundTrip16(c % 0x1_0000);
    LeRoundTrip32(size);
    assert r[off..off + 11] == name;
    assert r[off + 20..off + 22] == ToLe(2, c / 0x1_0000);
    assert r[off + 26..off + 28] == ToLe(2, c % 0x1_0000);
    assert r[off + 28..off + 32] == ToLe(4, size);
  }

  lemma SaysKept(d: seq<byte>, r: seq<byte>, off: nat, name: Name11, attr: byte, c: u32, size: u32)
    requires Says(d, off, name, attr, c, size) && |r| == |d| && forall i :: off <= i < off + 32 ==> r[i] == d[i]
    ensures Says(r, off, name, attr, c, size)
  {
    assert r[off..off + 11] == d[off..off + 11] && r[off + 20..off + 22] == d[off + 20..off + 22];
    assert r[off + 26..off + 28] == d[off + 26..off + 28] && r[off + 28..off + 32] == d[off + 28..off + 32];
  }

  method DirEnt(dir: array<byte>, off: nat, name: Name11, attr: byte, c: u32, size: u32)
    requires off + 32 <= dir.Length
    modifies dir
    ensures dir[..] == PutItem(old(dir[..]), off, name, attr, c, size)
    ensures Says(dir[..], off, name, attr, c, size)
    ensures forall i :: 0 <= i < dir.Length && !(off <= i < off + 32) ==> dir[i] == old(dir[i])
  {
    ItemStored(dir[..], off, name, attr, c, size);
    CopyIn(dir, off, name);
    CopyIn(dir, off + 11, [attr]);
    CopyIn(dir, off + 20, ToLe(2, c / 0x1_0000));
    CopyIn(dir, off + 26, ToLe(2, c % 0x1_0000));
    CopyIn(dir, off + 28, ToLe(4, size));
  }

  // ---- A reader ------------------------------------------------------------------------------------------

  datatype Item = Item(cluster: nat, size: nat, attr: byte)

  /** The first entry of that name that is neither the label nor part of a long name; a zero byte ends the directory. */
  function FindItem(d: seq<byte>, name: Name11, i: nat): Option<Item>
    requires |d| == SECTOR && i <= 16
    decreases 16 - i
  {
    if i == 16 || d[32 * i] == 0 then None
    else if NameAt(d, 32 * i) == name && d[32 * i + 11] != ATTR_LABEL && d[32 * i + 11] != ATTR_LFN
    then Some(Item(ClusterAt(d, 32 * i), SizeAt(d, 32 * i), d[32 * i + 11]))
    else FindItem(d, name, i + 1)
  }

  function ItemAt(d: seq<byte>, off: nat): Item
    requires off + 32 <= |d|
  {
    Item(ClusterAt(d, off), SizeAt(d, off), d[off + 11])
  }

  /** Entry 2 is the only one whose name can be `name`, and `name` is none that links leave behind. */
  ghost predicate OnlySecond(was: Sector, name: Name11) {
    |was| == SECTOR && name[3] >= 0x10 && forall j: nat | j < 16 && j != 2 :: was[32 * j] != name[0]
  }

  /** The contents a table copy gives for an entry: its chain, cut to its size. */
  ghost function ReadFile(g: Geo, d: Disk, f: nat, it: Item): Option<seq<byte>>
    requires Whole(d) && f + g.fatSec <= |d|
  {
    var t := Table(d, f, g.fatSec);
    var cs := Follow(t, it.cluster, |t|);
    if OnDisk(g, d, cs) && it.size <= |ReadClusters(g, d, cs)| then Some(ReadClusters(g, d, cs)[..it.size]) else None
  }

  /** Read the file at a path below the directory in cluster `c`. */
  ghost function ReadPath(g: Geo, d: Disk, f: nat, c: nat, names: seq<Name11>): Option<seq<byte>>
    requires Whole(d) && f + g.fatSec <= |d| && names != []
    decreases |names|
  {
    if c < 2 || Clba(g, c) >= |d| then None else
    match FindItem(d[Clba(g, c)], names[0], 0)
    case None => None
    case Some(it) =>
      if |names| == 1 then ReadFile(g, d, f, it)
      else if it.attr != ATTR_DIR then None
      else ReadPath(g, d, f, it.cluster, names[1..])
  }

  /** `nc` clusters hold the file. */
  ghost predicate Enough(g: Geo, data: seq<byte>, nc: nat) { SectorsOf(|data|) <= nc * g.spc }

  /** A file whose chain and sectors are in place is read back. */
  lemma FileReadable(g: Geo, d: Disk, f: nat, start: nat, nc: nat, data: seq<byte>, attr: byte)
    requires Whole(d) && f + g.fatSec <= |d| && start >= 2 && nc >= 1
    requires Clba(g, start + nc) <= |d| && Enough(g, data, nc)
    requires HasChain(Table(d, f, g.fatSec), start, nc)
    requires forall j: nat | j < SectorsOf(|data|) :: SectorIs(d, Clba(g, start), data, j)
    ensures ReadFile(g, d, f, Item(start, |data|, attr)) == Some(data)
  {
    var t := Table(d, f, g.fatSec);
    FollowChain(t, start, nc, 0, |t|);
    ReadRun(g, d, start, nc);
    JoinedFile(d, Clba(g, start), data, nc * g.spc);
  }

  lemma JoinedFile(d: Disk, lba: nat, data: seq<byte>, m: nat)
    requires Whole(d) && lba + m <= |d| && SectorsOf(|data|) <= m
    requires forall j: nat | j < SectorsOf(|data|) :: SectorIs(d, lba, data, j)
    ensures |data| <= |Join(d, lba, m)| && Join(d, lba, m)[..|data|] == data
  {
    var n := SectorsOf(|data|);
    JoinFile(d, lba, data, n);
    JoinJoin(d, lba, n, m - n);
    var all, head := Join(d, lba, m), Join(d, lba, n);
    forall i | 0 <= i < |data| ensures all[i] == data[i] { assert all[i] == head[i]; }
  }

  // ---- The directories ---------------------------------------------------------------------------------------

  const LABEL: Name11 := [0x41, 0x45, 0x54, 0x45, 0x52, 0x4E, 0x41, 0x20, 0x45, 0x53, 0x50]
  const EFI: Name11 := [0x45, 0x46, 0x49, 0x20, 0x20, 0x20, 0x20, 0x20, 0x20, 0x20, 0x20]
  const BOOT: Name11 := [0x42, 0x4F, 0x4F, 0x54, 0x20, 0x20, 0x20, 0x20, 0x20, 0x20, 0x20]
  const BOOTX64: Name11 := [0x42, 0x4F, 0x4F, 0x54, 0x58, 0x36, 0x34, 0x20, 0x45, 0x46, 0x49]
  const KERNEL: Name11 := [0x4B, 0x45, 0x52, 0x4E, 0x45, 0x4C, 0x20, 0x20, 0x20, 0x20, 0x20]
  const LIMINE: Name11 := [0x4C, 0x49, 0x4D, 0x49, 0x4E, 0x45, 0x7E, 0x31, 0x43, 0x4F, 0x4E]
  const SELF: Name11 := [0x2E, 0x20, 0x20, 0x20, 0x20, 0x20, 0x20, 0x20, 0x20, 0x20, 0x20]
  const PARENT: Name11 := [0x2E, 0x2E, 0x20, 0x20, 0x20, 0x20, 0x20, 0x20, 0x20, 0x20, 0x20]

  /** "limine.conf" in UCS-2. */
  const LONG_NAME: seq<u16> := [0x6C, 0x69, 0x6D, 0x69, 0x6E, 0x65, 0x2E, 0x63, 0x6F, 0x6E, 0x66]

  /** Where code unit `i` of a long-name entry lies. */
  function UnitAt(i: nat): nat {
    if i < 5 then 1 + 2 * i else if i < 11 then 14 + 2 * (i - 5) else 28 + 2 * (i - 11)
  }

  /** Code unit `i` of the first long-name entry: the name, a zero, then filler. */
  function Unit(name: seq<u16>, i: nat): u16 {
    if i < |name| then name[i] else if i == |name| then 0 else 0xFFFF
  }

  ghost predicate UnitIs(d: seq<byte>, off: nat, name: seq<u16>, i: nat) {
    off + UnitAt(i) + 2 <= |d| && (d[off + UnitAt(i)] as int) + 256 * (d[off + UnitAt(i) + 1] as int) == Unit(name, i)
  }

  /** `lfn_entry` for a name that fits in one entry. */
  method LfnEntry(dir: array<byte>, off: nat, ord: byte, name: seq<u16>, cksum: byte)
    requires off + 32 <= dir.Length
    modifies dir
    ensures dir[off] == ord && dir[off + 11] == ATTR_LFN && dir[off + 13] == cksum
    ensures forall i: nat | i < 13 :: UnitIs(dir[..], off, name, i)
    ensures forall i :: 0 <= i < dir.Length && !(off <= i < off + 32) ==> dir[i] == old(dir[i])
  {
    dir[off] := ord;
    dir[off + 11] := ATTR_LFN;
    dir[off + 12] := 0;
    dir[off + 13] := cksum;
    dir[off + 26] := 0;
    dir[off + 27] := 0;
    for i := 0 to 13
      invariant dir[off] == ord && dir[off + 11] == ATTR_LFN && dir[off + 13] == cksum
      invariant forall j: nat | j < i :: UnitIs(dir[..], off, name, j)
      invariant forall j :: 0 <= j < dir.Length && !(off <= j < off + 32) ==> dir[j] == old(dir[j])
    {
      var ch, at := Unit(name, i), off + UnitAt(i);
      ghost var was := dir[..];
      dir[at], dir[at + 1] := ch % 256, ch / 256;
      forall j: nat | j < i + 1 ensures UnitIs(dir[..], off, name, j) {
        if j < i { assert UnitIs(was, off, name, j); UnitsApart(i, j); }
      }
    }
  }

  lemma UnitsApart(i: nat, j: nat)
    requires j < i < 13
    ensures UnitAt(j) + 2 <= UnitAt(i)
  {
  }

  /** The root directory: label, the two directories, and the configuration under its long and its short name. */
  method RootDir(efiDc: u32, bootDc: u32, confC: u32, confLen: u32, cksum: byte) returns (d: seq<byte>)
    ensures |d| == SECTOR
    ensures FindItem(d, EFI, 0) == Some(Item(efiDc, 0, ATTR_DIR))
    ensures FindItem(d, BOOT, 0) == Some(Item(bootDc, 0, ATTR_DIR))
    ensures FindItem(d, LIMINE, 0) == Some(Item(confC, confLen, ATTR_FILE))
    ensures forall i: nat | i < 13 :: UnitIs(d, 96, LONG_NAME, i)
    ensures OnlySecond(d, BOOT) && ItemAt(d, 64) == Item(bootDc, 0, ATTR_DIR)
  {
    d := RootBytes(efiDc, bootDc, confC, confLen, cksum);
    RootFinds(d, efiDc, bootDc, confC, confLen);
    RootSlots(d);
  }

  method RootBytes(efiDc: u32, bootDc: u32, confC: u32, confLen: u32, cksum: byte) returns (d: seq<byte>)
    ensures |d| == SECTOR && d[0] == LABEL[0] && d[11] == ATTR_LABEL && d[96] == 0x41 && d[107] == ATTR_LFN
    ensures Says(d, 32, EFI, ATTR_DIR, efiDc, 0) && Says(d, 64, BOOT, ATTR_DIR, bootDc, 0)
    ensures Says(d, 128, LIMINE, ATTR_FILE, confC, confLen)
    ensures forall i: nat | i < 13 :: UnitIs(d, 96, LONG_NAME, i)
    ensures forall i :: 160 <= i < SECTOR ==> d[i] == 0
  {
    var a := new byte[SECTOR](_ => 0);
    LabelAndDirs(a, efiDc, bootDc);
    ghost var d2 := a[..];
    LongEntry(a, confC, confLen, cksum);
    d := a[..];
    SaysKept(d2, d, 32, EFI, ATTR_DIR, efiDc, 0);
    SaysKept(d2, d, 64, BOOT, ATTR_DIR, bootDc, 0);
  }

  /** The configuration under its long and its short name. */
  method LongEntry(a: array<byte>, confC: u32, confLen: u32, cksum: byte)
    requires a.Length == SECTOR
    modifies a
    ensures a[96] == 0x41 && a[107] == ATTR_LFN && Says(a[..], 128, LIMINE, ATTR_FILE, confC, confLen)
    ensures forall i: nat | i < 13 :: UnitIs(a[..], 96, LONG_NAME, i)
    ensures forall i :: 0 <= i < SECTOR && !(96 <= i < 160) ==> a[i] == old(a[i])
  {
    LfnEntry(a, 96, 0x41, LONG_NAME, cksum);
    ghost var d3 := a[..];
    DirEnt(a, 128, LIMINE, ATTR_FILE, confC, confLen);
    UnitsKept(d3, a[..], 96, LONG_NAME);
  }

  lemma RootSlots(d: seq<byte>)
    requires |d| == SECTOR && d[0] == LABEL[0] && NameAt(d, 32) == EFI && d[96] == 0x41 && NameAt(d, 128) == LIMINE
    requires forall i :: 160 <= i < SECTOR ==> d[i] == 0
    ensures OnlySecond(d, BOOT)
  {
    FirstByte(d, 32, EFI);
    FirstByte(d, 128, LIMINE);
    forall j: nat | j < 16 && j != 2 ensures d[32 * j] != BOOT[0] {
      if j >= 5 { assert d[32 * j] == 0; } else { assert j in {0, 1, 3, 4}; }
    }
  }

  method LabelAndDirs(a: array<byte>, efiDc: u32, bootDc: u32)
    requires a.Length == SECTOR
    modifies a
    ensures a[0] == LABEL[0] && a[11] == ATTR_LABEL
    ensures Says(a[..], 32, EFI, ATTR_DIR, efiDc, 0) && Says(a[..], 64, BOOT, ATTR_DIR, bootDc, 0)
    ensures forall i :: 96 <= i < SECTOR ==> a[i] == old(a[i])
  {
    CopyIn(a, 0, LABEL);
    assert a[..][0] == LABEL[0];
    a[11] := ATTR_LABEL;
    DirEnt(a, 32, EFI, ATTR_DIR, efiDc, 0);
    ghost var d1 := a[..];
    DirEnt(a, 64, BOOT, ATTR_DIR, bootDc, 0);
    SaysKept(d1, a[..], 32, EFI, ATTR_DIR, efiDc, 0);
  }

  lemma UnitsKept(d: seq<byte>, d': seq<byte>, off: nat, name: seq<u16>)
    requires |d'| == |d| && off + 32 <= |d| && (forall i :: off <= i < off + 32 ==> d'[i] == d[i])
    requires forall i: nat | i < 13 :: UnitIs(d, off, name, i)
    ensures forall i: nat | i < 13 :: UnitIs(d', off, name, i)
  {
    forall i: nat | i < 13 ensures UnitIs(d', off, name, i) { assert UnitIs(d, off, name, i); }
  }

  lemma RootFinds(d: seq<byte>, efiDc: u32, bootDc: u32, confC: u32, confLen: u32)
    requires |d| == SECTOR && d[0] == LABEL[0] && d[11] == ATTR_LABEL && d[96] == 0x41 && d[107] == ATTR_LFN
    requires Says(d, 32, EFI, ATTR_DIR, efiDc, 0) && Says(d, 64, BOOT, ATTR_DIR, bootDc, 0)
    requires Says(d, 128, LIMINE, ATTR_FILE, confC, confLen)
    ensures FindItem(d, EFI, 0) == Some(Item(efiDc, 0, ATTR_DIR))
    ensures FindItem(d, BOOT, 0) == Some(Item(bootDc, 0, ATTR_DIR))
    ensures FindItem(d, LIMINE, 0) == Some(Item(confC, confLen, ATTR_FILE))
  {
    FirstByte(d, 32, EFI);
    FirstByte(d, 64, BOOT);
    FindSays(d, 1, EFI, ATTR_DIR, efiDc, 0);
    FindSays(d, 2, BOOT, ATTR_DIR, bootDc, 0);
    FindSays(d, 4, LIMINE, ATTR_FILE, confC, confLen);
  }

  lemma FirstByte(d: seq<byte>, off: nat, name: Name11)
    requires off + 32 <= |d| && NameAt(d, off) == name
    ensures d[off] == name[0]
  {
    assert NameAt(d, off)[0] == d[off];
  }

  /** The first `k` entries are passed. */
  ghost predicate SkipsAll(d: seq<byte>, name: Name11, k: nat)
    requires |d| == SECTOR && k <= 4
  {
    && (k > 0 ==> Skips(d, name, 0)) && (k > 1 ==> Skips(d, name, 1))
    && (k > 2 ==> Skips(d, name, 2)) && (k > 3 ==> Skips(d, name, 3))
  }

  lemma FindSays(d: seq<byte>, k: nat, name: Name11, attr: byte, c: u32, size: u32)
    requires |d| == SECTOR && k <= 4 && SkipsAll(d, name, k)
    requires Says(d, 32 * k, name, attr, c, size) && name[0] != 0 && attr != ATTR_LABEL && attr != ATTR_LFN
    ensures FindItem(d, name, 0) == Some(Item(c, size, attr))
  {
    FindAt(d, name, 0, k);
  }

  /** A search passes entry `j`. */
  ghost predicate Skips(d: seq<byte>, name: Name11, j: nat)
    requires |d| == SECTOR && j < 16
  {
    d[32 * j] != 0 && (d[32 * j] != name[0] || d[32 * j + 11] == ATTR_LABEL || d[32 * j + 11] == ATTR_LFN)
  }

  lemma {:induction false} FindAt(d: seq<byte>, name: Name11, i: nat, k: nat)
    requires |d| == SECTOR && i <= k < 16 && (forall j: nat | i <= j < k :: Skips(d, name, j))
    requires NameAt(d, 32 * k) == name && name[0] != 0 && d[32 * k + 11] != ATTR_LABEL && d[32 * k + 11] != ATTR_LFN
    ensures FindItem(d, name, i) == Some(Item(ClusterAt(d, 32 * k), SizeAt(d, 32 * k), d[32 * k + 11]))
    decreases k - i
  {
    assert NameAt(d, 32 * k)[0] == d[32 * k];
    if i < k {
      assert Skips(d, name, i) && NameAt(d, 32 * i)[0] == d[32 * i];
      FindAt(d, name, i + 1, k);
    }
  }

  /** A directory with its two dot entries and one more. */
  method SubDir(my: u32, parent: u32, name: Name11, attr: byte, c: u32, size: u32) returns (d: seq<byte>)
    requires name[0] != 0x2E && name[0] != 0 && attr != ATTR_LABEL && attr != ATTR_LFN
    ensures |d| == SECTOR
    ensures FindItem(d, name, 0) == Some(Item(c, size, attr))
    ensures FindItem(d, SELF, 0) == Some(Item(my, 0, ATTR_DIR)) && FindItem(d, PARENT, 0) == Some(Item(parent, 0, ATTR_DIR))
    ensures name[3] >= 0x10 ==> OnlySecond(d, name)
    ensures ItemAt(d, 64) == Item(c, size, attr)
  {
    d := SubBytes(my, parent, name, attr, c, size);
    SubFinds(d, my, parent, name, attr, c, size);
    if name[3] >= 0x10 { SubSlots(d, name); }
  }

  method SubBytes(my: u32, parent: u32, name: Name11, attr: byte, c: u32, size: u32) returns (d: seq<byte>)
    ensures |d| == SECTOR && Says(d, 0, SELF, ATTR_DIR, my, 0) && Says(d, 32, PARENT, ATTR_DIR, parent, 0)
    ensures Says(d, 64, name, attr, c, size) && forall i :: 96 <= i < SECTOR ==> d[i] == 0
  {
    var a := new byte[SECTOR](_ => 0);
    DotEnts(a, my, parent);
    ghost var d1 := a[..];
    DirEnt(a, 64, name, attr, c, size);
    d := a[..];
    SaysKept(d1, d, 0, SELF, ATTR_DIR, my, 0);
    SaysKept(d1, d, 32, PARENT, ATTR_DIR, parent, 0);
  }

  /** `dot_ents` */
  method DotEnts(a: array<byte>, my: u32, parent: u32)
    requires a.Length == SECTOR
    modifies a
    ensures Says(a[..], 0, SELF, ATTR_DIR, my, 0) && Says(a[..], 32, PARENT, ATTR_DIR, parent, 0)
    ensures forall i :: 64 <= i < SECTOR ==> a[i] == old(a[i])
  {
    DirEnt(a, 0, SELF, ATTR_DIR, my, 0);
    ghost var d0 := a[..];
    DirEnt(a, 32, PARENT, ATTR_DIR, parent, 0);
    SaysKept(d0, a[..], 0, SELF, ATTR_DIR, my, 0);
  }

  lemma SubSlots(d: seq<byte>, name: Name11)
    requires |d| == SECTOR && NameAt(d, 0) == SELF && NameAt(d, 32) == PARENT && name[0] != 0x2E && name[0] != 0
    requires name[3] >= 0x10 && forall i :: 96 <= i < SECTOR ==> d[i] == 0
    ensures OnlySecond(d, name)
  {
    FirstByte(d, 0, SELF);
    FirstByte(d, 32, PARENT);
    forall j: nat | j < 16 && j != 2 ensures d[32 * j] != name[0] {
      if j >= 3 { assert d[32 * j] == 0; } else { assert j in {0, 1}; }
    }
  }

  lemma PassSelf(d: seq<byte>)
    requires |d| == SECTOR && NameAt(d, 0) == SELF
    ensures FindItem(d, PARENT, 0) == FindItem(d, PARENT, 1)
  {
    assert NameAt(d, 0)[0] == d[0] && SELF[1] != PARENT[1];
  }

  lemma SubFinds(d: seq<byte>, my: u32, parent: u32, name: Name11, attr: byte, c: u32, size: u32)
    requires |d| == SECTOR && name[0] != 0x2E && name[0] != 0 && attr != ATTR_LABEL && attr != ATTR_LFN
    requires Says(d, 0, SELF, ATTR_DIR, my, 0) && Says(d, 32, PARENT, ATTR_DIR, parent, 0) && Says(d, 64, name, attr, c, size)
    ensures FindItem(d, name, 0) == Some(Item(c, size, attr))
    ensures FindItem(d, SELF, 0) == Some(Item(my, 0, ATTR_DIR)) && FindItem(d, PARENT, 0) == Some(Item(parent, 0, ATTR_DIR))
  {
    assert d[0] == NameAt(d, 0)[0] == SELF[0] && NameAt(d, 0)[1] == SELF[1];
    assert d[32] == NameAt(d, 32)[0] == PARENT[0];
    assert d[64] == NameAt(d, 64)[0] == name[0];
    assert PARENT[1] != SELF[1];
    PassSelf(d);
    FindSays(d, 2, name, attr, c, size);
  }
}
