/** The whole system partition: directories, chains and files as `do_install` writes them, and that every installed
    file is read back by its path. */
module EspInstall {
  import opened Bytes
  import opened Sectors
  import opened Drives
  import opened Fat32
  import opened Installer
  import opened EspDirs
  import opened EspOverrun

  // ---- The installation -------------------------------------------------------------------------------------------

  /** Both copies of the table are `t`. */
  ghost predicate Tables(g: Geo, d: Disk, t: seq<u32>) {
    Whole(d) && DataLba(g) <= |d| && Table(d, Fat1(g), g.fatSec) == t && Table(d, Fat2(g), g.fatSec) == t
  }

  /** Only sectors from `lo` up to `hi` differ. */
  ghost predicate SameBut(d: Disk, d': Disk, lo: nat, hi: nat) {
    |d'| == |d| && forall k :: 0 <= k < |d| && !(lo <= k < hi) ==> d'[k] == d[k]
  }

  lemma TablesKept(g: Geo, d: Disk, d': Disk, lo: nat, hi: nat, t: seq<u32>)
    requires Tables(g, d, t) && SameBut(d, d', lo, hi) && Whole(d') && DataLba(g) <= lo
    ensures Tables(g, d', t)
  {
    TableSame(d, d', Fat1(g), g.fatSec);
    TableSame(d, d', Fat2(g), g.fatSec);
  }

  /** Two equal stretches of sectors are two equal copies. */
  lemma CopiesAgree(g: Geo, d: Disk)
    requires Whole(d) && DataLba(g) <= |d|
    requires forall k :: Fat1(g) <= k < Fat2(g) ==> d[k] == d[k + g.fatSec]
    ensures Tables(g, d, Table(d, Fat1(g), g.fatSec))
  {
    var t1, t2 := Table(d, Fat1(g), g.fatSec), Table(d, Fat2(g), g.fatSec);
    forall c | 0 <= c < |t1| ensures t1[c] == t2[c] {
      var k := Fat1(g) + c / PER_SECTOR;
      assert d[k] == d[k + g.fatSec];
    }
  }

  /** Write the same sectors over a stretch of the disk. */
  method Fill(target: Target, lba: nat, n: nat, sector: seq<byte>)
    requires target.Valid() && lba + n <= |target.Disk()| && |sector| == SECTOR
    modifies target.drive`sectors
    ensures target.Valid() && SameBut(old(target.Disk()), target.Disk(), lba, lba + n)
    ensures forall k :: lba <= k < lba + n ==> target.Disk()[k] == sector
  {
    for i := 0 to n
      invariant target.Valid() && SameBut(old(target.Disk()), target.Disk(), lba, lba + n)
      invariant forall k :: lba <= k < lba + i ==> target.Disk()[k] == sector
    {
      target.PutSector(lba + i, sector);
    }
  }

  /** Zero both tables and write their first sector. */
  method InitTables(target: Target, g: Geo)
    requires target.Valid() && DataLba(g) <= |target.Disk()| && g.fatSec >= 1
    modifies target.drive`sectors
    ensures target.Valid() && SameBut(old(target.Disk()), target.Disk(), Fat1(g), DataLba(g))
    ensures Tables(g, target.Disk(), Table(target.Disk(), Fat1(g), g.fatSec))
  {
    Fill(target, Fat1(g), g.fatSec, Zeros(SECTOR));
    Fill(target, Fat2(g), g.fatSec, Zeros(SECTOR));
    var fat0 := ToLe(4, EOC_MIN) + ToLe(4, EOC) + ToLe(4, EOC) + Zeros(SECTOR - 12);
    target.PutSector(Fat1(g), fat0);
    target.PutSector(Fat2(g), fat0);
    CopiesAgree(g, target.Disk());
  }

  /** A chain within the table, in both copies. */
  lemma LinksTables(g: Geo, d: Disk, t: seq<u32>, start: nat, nc: nat)
    requires Tables(g, d, t) && start + nc <= TableSize(g) && start + nc <= EOC_MIN && Reach(g, |d|, start + nc)
    ensures var r := PutLinks(g, d, start, nc, nc);
            SameBut(d, r, Fat1(g), DataLba(g)) && Tables(g, r, WithLinks(t, start, nc, nc))
  {
    LinksChain(g, d, start, nc);
  }

  /** The place of the last entry lies below the last cluster. */
  lemma EndFits(g: Geo, end: nat)
    requires g.spc >= 1 && g.fatSec >= 1 && end >= 3
    ensures Fat2(g) + end / PER_SECTOR < Clba(g, end)
  {
    assert (end - 2) * g.spc >= end - 2;
  }

  /** A file's clusters, then its chain; `mid` is the disk in between. */
  method AddFile(target: Target, g: Geo, data: seq<byte>, start: nat, nc: nat) returns (ghost mid: Disk)
    requires target.Valid() && g.spc >= 1 && start >= 2 && Enough(g, data, nc)
    requires start + nc <= EOC_MIN && Clba(g, start + nc) <= |target.Disk()| && Reach(g, |target.Disk()|, start + nc)
    modifies target.drive`sectors
    ensures target.Valid() && Whole(mid) && |mid| == |old(target.Disk())| && Clba(g, start) + SectorsOf(|data|) <= |old(target.Disk())|
    ensures Copied(old(target.Disk()), mid, Clba(g, start), data, SectorsOf(|data|))
    ensures |target.Disk()| == |mid| && target.Disk() == PutLinks(g, mid, start, nc, nc)
  {
    target.WriteClusters(g, data, start, nc);
    mid := target.Disk();
    target.WriteChain(g, start, nc);
  }

  lemma FileWritten(g: Geo, d: Disk, mid: Disk, start: nat, nc: nat, data: seq<byte>, t: seq<u32>)
    requires Tables(g, d, t) && g.spc >= 1 && start >= 2 && Enough(g, data, nc) && Clba(g, start + nc) <= |d| && Whole(mid)
    requires Clba(g, start) + SectorsOf(|data|) <= |d| && Copied(d, mid, Clba(g, start), data, SectorsOf(|data|))
    ensures Tables(g, mid, t) && SameBut(d, mid, Clba(g, start), Clba(g, start + nc)) && FileIn(g, mid, start, data)
  {
    ClusterLba(g, start, nc);
    DataBelow(g, start);
    TablesKept(g, d, mid, Clba(g, start), Clba(g, start + nc), t);
  }

  lemma DataBelow(g: Geo, c: nat)
    requires c >= 2
    ensures DataLba(g) <= Clba(g, c)
  {
    ClusterBelow(g, 2, c);
  }

  lemma BothSteps(g: Geo, d0: Disk, d1: Disk, d2: Disk, start: nat, nc: nat)
    requires start >= 2 && SameBut(d0, d1, Clba(g, start), Clba(g, start + nc)) && SameBut(d1, d2, Fat1(g), DataLba(g))
    ensures OnlyFile(g, d0, d2, start, nc)
  {
  }

  /** Only the tables and the clusters of the file differ. */
  ghost predicate OnlyFile(g: Geo, d: Disk, d': Disk, start: nat, nc: nat)
    requires start >= 2
  {
    |d'| == |d| && forall k :: 0 <= k < |d| && !(Fat1(g) <= k < DataLba(g)) && !(Clba(g, start) <= k < Clba(g, start + nc))
                               ==> d'[k] == d[k]
  }

  ghost predicate FileIn(g: Geo, d: Disk, start: nat, data: seq<byte>)
    requires start >= 2
  {
    forall j: nat | j < SectorsOf(|data|) :: SectorIs(d, Clba(g, start), data, j)
  }

  lemma FileKept(g: Geo, d: Disk, d': Disk, start: nat, data: seq<byte>, lo: nat, hi: nat)
    requires start >= 2 && FileIn(g, d, start, data) && SameBut(d, d', lo, hi)
    requires hi <= Clba(g, start) || Clba(g, start) + SectorsOf(|data|) <= lo
    ensures FileIn(g, d', start, data)
  {
    forall j: nat | j < SectorsOf(|data|) ensures SectorIs(d', Clba(g, start), data, j) {
      assert SectorIs(d, Clba(g, start), data, j);
    }
  }

  /** The configuration file: whole sectors, then the rest padded. */
  method WriteConf(target: Target, lba: nat, data: seq<byte>)
    requires target.Valid() && |data| > 0 && lba + SectorsOf(|data|) <= |target.Disk()|
    modifies target.drive`sectors
    ensures target.Valid() && Copied(old(target.Disk()), target.Disk(), lba, data, SectorsOf(|data|))
  {
    ghost var d0 := target.Disk();
    var full, partial := |data| / SECTOR, |data| % SECTOR;
    target.WriteFull(lba, data, 0, full, d0);
    if partial > 0 { target.WriteTail(lba, data, full, d0); }
  }

  // ---- Putting it together ---------------------------------------------------------------------------------------

  const ROOT_C: nat := 2
  const EFI_DC: nat := 3
  const BOOT_DC: nat := 4
  const SYSB_C: nat := 5
  const CONF_C: nat := 6
  const EFI_C: nat := 7

  /** The files to install, and the clusters the two large ones get. */
  datatype Files = Files(conf: seq<byte>, efi: seq<byte>, kernel: seq<byte>, efiN: nat, kernelN: nat)

  function EfiEnd(fs: Files): nat { EFI_C + fs.efiN }

  function KernelEnd(fs: Files): nat { EfiEnd(fs) + fs.kernelN }

  /** The clusters used lie on the disk and are no more than links can name; sizes fit their fields, and the kernel
      needs its last cluster. */
  ghost predicate Fits(g: Geo, d: Disk, fs: Files) {
    && Whole(d) && g.spc >= 1 && g.fatSec >= 1 && KernelEnd(fs) <= EOC_MIN && Clba(g, KernelEnd(fs)) <= |d|
    && fs.efiN >= 1 && fs.kernelN >= 1 && (fs.efi == [] ==> fs.efiN == 1)
    && Enough(g, fs.conf, 1) && Enough(g, fs.efi, fs.efiN) && Enough(g, fs.kernel, fs.kernelN)
    && 0 < |fs.conf| < 0x1_0000_0000 && |fs.efi| < 0x1_0000_0000 && |fs.kernel| < 0x1_0000_0000
    && (fs.kernel != [] ==> |fs.kernel| > (fs.kernelN - 1) * (g.spc * SECTOR))
  }

  /** Every cluster used has an entry in the table. */
  predicate InTable(g: Geo, fs: Files) { KernelEnd(fs) <= TableSize(g) }

  /** The first sectors of the four directories. */
  datatype Dirs = Dirs(root: Sector, efi: Sector, boot: Sector, sysb: Sector)

  /** The directories name the subdirectories and files. */
  ghost predicate Lists(ds: Dirs, fs: Files) {
    && |ds.root| == |ds.efi| == |ds.boot| == |ds.sysb| == SECTOR
    && FindItem(ds.root, EFI, 0) == Some(Item(EFI_DC, 0, ATTR_DIR))
    && FindItem(ds.root, BOOT, 0) == Some(Item(SYSB_C, 0, ATTR_DIR))
    && FindItem(ds.root, LIMINE, 0) == Some(Item(CONF_C, |fs.conf|, ATTR_FILE))
    && FindItem(ds.efi, BOOT, 0) == Some(Item(BOOT_DC, 0, ATTR_DIR))
    && FindItem(ds.boot, BOOTX64, 0) == Some(Item(EFI_C, |fs.efi|, ATTR_FILE))
    && FindItem(ds.sysb, KERNEL, 0) == Some(Item(EfiEnd(fs), |fs.kernel|, ATTR_FILE))
  }

  /** The entries on the way to the kernel. */
  ghost predicate Leads(root: Sector, sysb: Sector, start: nat, size: nat) {
    && OnlySecond(root, BOOT) && ItemAt(root, 64) == Item(SYSB_C, 0, ATTR_DIR)
    && OnlySecond(sysb, KERNEL) && ItemAt(sysb, 64) == Item(start, size, ATTR_FILE)
  }

  method BuildDirs(fs: Files, cksum: byte) returns (ds: Dirs)
    requires EfiEnd(fs) < 0x1_0000_0000
    requires |fs.conf| < 0x1_0000_0000 && |fs.efi| < 0x1_0000_0000 && |fs.kernel| < 0x1_0000_0000
    ensures Lists(ds, fs) && Leads(ds.root, ds.sysb, EfiEnd(fs), |fs.kernel|)
  {
    var root := RootDir(EFI_DC, SYSB_C, CONF_C, |fs.conf|, cksum);
    var efi := SubDir(EFI_DC, ROOT_C, BOOT, ATTR_DIR, BOOT_DC, 0);
    var boot := SubDir(BOOT_DC, EFI_DC, BOOTX64, ATTR_FILE, EFI_C, |fs.efi|);
    var sysb := SubDir(SYSB_C, ROOT_C, KERNEL, ATTR_FILE, EfiEnd(fs), |fs.kernel|);
    ds := Dirs(root, efi, boot, sysb);
    LeadsOn(root, sysb, EfiEnd(fs), |fs.kernel|);
  }

  lemma LeadsOn(root: Sector, sysb: Sector, start: nat, size: nat)
    requires OnlySecond(root, BOOT) && ItemAt(root, 64) == Item(SYSB_C, 0, ATTR_DIR)
    requires (KERNEL[3] >= 0x10 ==> OnlySecond(sysb, KERNEL)) && |sysb| == SECTOR && ItemAt(sysb, 64) == Item(start, size, ATTR_FILE)
    ensures Leads(root, sysb, start, size)
  {
  }

  /** The directories are on the disk. */
  ghost predicate DirsIn(g: Geo, d: Disk, ds: Dirs) {
    && g.spc >= 1 && Clba(g, CONF_C) <= |d|
    && d[Clba(g, ROOT_C)] == ds.root && d[Clba(g, EFI_DC)] == ds.efi
    && d[Clba(g, BOOT_DC)] == ds.boot && d[Clba(g, SYSB_C)] == ds.sysb
  }

  lemma DirsKept(g: Geo, d: Disk, d': Disk, ds: Dirs)
    requires DirsIn(g, d, ds) && |d'| == |d|
    requires forall k :: Clba(g, ROOT_C) <= k < Clba(g, CONF_C) ==> d'[k] == d[k]
    ensures DirsIn(g, d', ds)
  {
  }

  /** Zero the directory clusters and write the first sector of each. */
  method WriteDirs(target: Target, g: Geo, ds: Dirs, ghost t: seq<u32>)
    requires target.Valid() && Tables(g, target.Disk(), t) && g.spc >= 1 && Clba(g, CONF_C) <= |target.Disk()|
    requires |ds.root| == |ds.efi| == |ds.boot| == |ds.sysb| == SECTOR
    modifies target.drive`sectors
    ensures target.Valid() && SameBut(old(target.Disk()), target.Disk(), DataLba(g), Clba(g, CONF_C))
    ensures Tables(g, target.Disk(), t) && DirsIn(g, target.Disk(), ds)
  {
    ghost var d0 := target.Disk();
    Fill(target, Clba(g, ROOT_C), g.spc, Zeros(SECTOR));
    Fill(target, Clba(g, EFI_DC), g.spc, Zeros(SECTOR));
    Fill(target, Clba(g, BOOT_DC), g.spc, Zeros(SECTOR));
    Fill(target, Clba(g, SYSB_C), g.spc, Zeros(SECTOR));
    target.PutSector(Clba(g, ROOT_C), ds.root);
    target.PutSector(Clba(g, EFI_DC), ds.efi);
    target.PutSector(Clba(g, BOOT_DC), ds.boot);
    target.PutSector(Clba(g, SYSB_C), ds.sysb);
    TablesKept(g, d0, target.Disk(), DataLba(g), Clba(g, CONF_C), t);
  }

  ghost predicate DirChains(t: seq<u32>) {
    HasChain(t, ROOT_C, 1) && HasChain(t, EFI_DC, 1) && HasChain(t, BOOT_DC, 1) && HasChain(t, SYSB_C, 1)
  }

  method ChainDirs(target: Target, g: Geo, ghost t: seq<u32>) returns (ghost t': seq<u32>)
    requires target.Valid() && Tables(g, target.Disk(), t) && CONF_C <= TableSize(g)
    modifies target.drive`sectors
    ensures target.Valid() && SameBut(old(target.Disk()), target.Disk(), Fat1(g), DataLba(g))
    ensures Tables(g, target.Disk(), t') && DirChains(t')
  {
    ghost var t1 := ChainDir(target, g, ROOT_C, t);
    ghost var t2 := ChainDir(target, g, EFI_DC, t1);
    ghost var t3 := ChainDir(target, g, BOOT_DC, t2);
    t' := ChainDir(target, g, SYSB_C, t3);
    OwnChain(t, ROOT_C, t1);
    OwnChain(t1, EFI_DC, t2);
    OwnChain(t2, BOOT_DC, t3);
    OwnChain(t3, SYSB_C, t');
  }

  /** A chain of one cluster, with the chains of the clusters below it. */
  lemma OwnChain(t: seq<u32>, c: nat, t': seq<u32>)
    requires c < |t| && c < CONF_C && t' == WithLinks(t, c, 1, 1)
    ensures HasChain(t', c, 1) && forall b :: 0 <= b < c && HasChain(t, b, 1) ==> HasChain(t', b, 1)
  {
  }

  method ChainDir(target: Target, g: Geo, c: nat, ghost t: seq<u32>) returns (ghost t': seq<u32>)
    requires target.Valid() && Tables(g, target.Disk(), t) && c < CONF_C && CONF_C <= TableSize(g)
    modifies target.drive`sectors
    ensures target.Valid() && SameBut(old(target.Disk()), target.Disk(), Fat1(g), DataLba(g))
    ensures t' == WithLinks(t, c, 1, 1) && Tables(g, target.Disk(), t')
  {
    LinksTables(g, target.Disk(), t, c, 1);
    target.WriteChain(g, c, 1);
    t' := WithLinks(t, c, 1, 1);
  }

  lemma DirChainsKept(t: seq<u32>, start: nat, nc: nat)
    requires DirChains(t) && CONF_C <= start && start + nc <= |t| && start + nc <= EOC_MIN
    ensures DirChains(WithLinks(t, start, nc, nc))
  {
    ChainDone(t, start, nc, ROOT_C, 1);
    ChainDone(t, start, nc, EFI_DC, 1);
    ChainDone(t, start, nc, BOOT_DC, 1);
    ChainDone(t, start, nc, SYSB_C, 1);
  }

  /** Every installed file is read back by its path, through the table copy at `f`. */
  ghost predicate Readable(g: Geo, d: Disk, f: nat, fs: Files)
    requires Whole(d) && f + g.fatSec <= |d|
  {
    && ReadPath(g, d, f, ROOT_C, [LIMINE]) == Some(fs.conf)
    && (fs.efi != [] ==> ReadPath(g, d, f, ROOT_C, [EFI, BOOT, BOOTX64]) == Some(fs.efi))
    && (fs.kernel != [] ==> ReadPath(g, d, f, ROOT_C, [BOOT, KERNEL]) == Some(fs.kernel))
  }

  lemma WalkOne(g: Geo, d: Disk, f: nat, c: nat, name: Name11, it: Item)
    requires Whole(d) && f + g.fatSec <= |d| && c >= 2 && Clba(g, c) < |d| && FindItem(d[Clba(g, c)], name, 0) == Some(it)
    ensures ReadPath(g, d, f, c, [name]) == ReadFile(g, d, f, it)
  {
  }

  lemma WalkDown(g: Geo, d: Disk, f: nat, c: nat, name: Name11, it: Item, rest: seq<Name11>)
    requires Whole(d) && f + g.fatSec <= |d| && c >= 2 && Clba(g, c) < |d| && FindItem(d[Clba(g, c)], name, 0) == Some(it)
    requires it.attr == ATTR_DIR && rest != []
    ensures ReadPath(g, d, f, c, [name] + rest) == ReadPath(g, d, f, it.cluster, rest)
  {
    assert ([name] + rest)[1..] == rest;
  }

  /** The contents of a file are in place: its chain in the table, its bytes in its clusters. */
  ghost predicate Placed(g: Geo, d: Disk, t: seq<u32>, start: nat, nc: nat, data: seq<byte>)
    requires start >= 2
  {
    nc >= 1 && HasChain(t, start, nc) && Clba(g, start + nc) <= |d| && Enough(g, data, nc) && FileIn(g, d, start, data)
  }

  lemma PlacedReads(g: Geo, d: Disk, f: nat, t: seq<u32>, start: nat, nc: nat, data: seq<byte>)
    requires start >= 2 && Tables(g, d, t) && (f == Fat1(g) || f == Fat2(g)) && Placed(g, d, t, start, nc, data)
    ensures ReadFile(g, d, f, Item(start, |data|, ATTR_FILE)) == Some(data)
  {
    FileReadable(g, d, f, start, nc, data, ATTR_FILE);
  }

  lemma DirsOnDisk(g: Geo, d: Disk)
    requires g.spc >= 1 && Clba(g, CONF_C) <= |d|
    ensures Clba(g, ROOT_C) < |d| && Clba(g, EFI_DC) < |d| && Clba(g, BOOT_DC) < |d| && Clba(g, SYSB_C) < |d|
  {
  }

  lemma ConfReadable(g: Geo, d: Disk, f: nat, t: seq<u32>, ds: Dirs, fs: Files)
    requires g.spc >= 1 && Tables(g, d, t) && (f == Fat1(g) || f == Fat2(g)) && DirsIn(g, d, ds) && Lists(ds, fs)
    requires Placed(g, d, t, CONF_C, 1, fs.conf)
    ensures ReadPath(g, d, f, ROOT_C, [LIMINE]) == Some(fs.conf)
  {
    DirsOnDisk(g, d);
    PlacedReads(g, d, f, t, CONF_C, 1, fs.conf);
    WalkOne(g, d, f, ROOT_C, LIMINE, Item(CONF_C, |fs.conf|, ATTR_FILE));
  }

  lemma EfiReadable(g: Geo, d: Disk, f: nat, t: seq<u32>, ds: Dirs, fs: Files)
    requires g.spc >= 1 && Tables(g, d, t) && (f == Fat1(g) || f == Fat2(g)) && DirsIn(g, d, ds) && Lists(ds, fs)
    requires Placed(g, d, t, EFI_C, fs.efiN, fs.efi)
    ensures ReadPath(g, d, f, ROOT_C, [EFI, BOOT, BOOTX64]) == Some(fs.efi)
  {
    DirsOnDisk(g, d);
    PlacedReads(g, d, f, t, EFI_C, fs.efiN, fs.efi);
    WalkOne(g, d, f, BOOT_DC, BOOTX64, Item(EFI_C, |fs.efi|, ATTR_FILE));
    WalkDown(g, d, f, EFI_DC, BOOT, Item(BOOT_DC, 0, ATTR_DIR), [BOOTX64]);
    WalkDown(g, d, f, ROOT_C, EFI, Item(EFI_DC, 0, ATTR_DIR), [BOOT, BOOTX64]);
    assert [EFI] + [BOOT, BOOTX64] == [EFI, BOOT, BOOTX64] && [BOOT] + [BOOTX64] == [BOOT, BOOTX64];
  }

  lemma KernelReadable(g: Geo, d: Disk, f: nat, t: seq<u32>, ds: Dirs, fs: Files)
    requires g.spc >= 1 && Tables(g, d, t) && (f == Fat1(g) || f == Fat2(g)) && DirsIn(g, d, ds) && Lists(ds, fs)
    requires Placed(g, d, t, EfiEnd(fs), fs.kernelN, fs.kernel)
    ensures ReadPath(g, d, f, ROOT_C, [BOOT, KERNEL]) == Some(fs.kernel)
  {
    DirsOnDisk(g, d);
    PlacedReads(g, d, f, t, EfiEnd(fs), fs.kernelN, fs.kernel);
    WalkOne(g, d, f, SYSB_C, KERNEL, Item(EfiEnd(fs), |fs.kernel|, ATTR_FILE));
    WalkDown(g, d, f, ROOT_C, BOOT, Item(SYSB_C, 0, ATTR_DIR), [KERNEL]);
    assert [BOOT] + [KERNEL] == [BOOT, KERNEL];
  }

  lemma PathsReadable(g: Geo, d: Disk, f: nat, t: seq<u32>, ds: Dirs, fs: Files)
    requires g.spc >= 1 && Tables(g, d, t) && (f == Fat1(g) || f == Fat2(g)) && DirsIn(g, d, ds) && Lists(ds, fs)
    requires Placed(g, d, t, CONF_C, 1, fs.conf)
    requires fs.efi != [] ==> Placed(g, d, t, EFI_C, fs.efiN, fs.efi)
    requires fs.kernel != [] ==> Placed(g, d, t, EfiEnd(fs), fs.kernelN, fs.kernel)
    ensures Readable(g, d, f, fs)
  {
    ConfReadable(g, d, f, t, ds, fs);
    if fs.efi != [] { EfiReadable(g, d, f, t, ds, fs); }
    if fs.kernel != [] { KernelReadable(g, d, f, t, ds, fs); }
  }

  // ---- The method ------------------------------------------------------------------------------------------------------

  lemma PlacedKept(g: Geo, d: Disk, d': Disk, t: seq<u32>, t': seq<u32>, start: nat, nc: nat, data: seq<byte>)
    requires start >= 2 && Placed(g, d, t, start, nc, data) && |d'| == |d| && HasChain(t', start, nc)
    requires forall k :: Clba(g, start) <= k < Clba(g, start + nc) ==> d'[k] == d[k]
    ensures Placed(g, d', t', start, nc, data)
  {
    ClusterLba(g, start, nc);
    forall j: nat | j < SectorsOf(|data|) ensures SectorIs(d', Clba(g, start), data, j) {
      assert SectorIs(d, Clba(g, start), data, j);
    }
  }

  /** One file with its chain, within the table. */
  lemma FilePlaced(g: Geo, d: Disk, mid: Disk, d': Disk, start: nat, nc: nat, data: seq<byte>, t: seq<u32>)
    requires Tables(g, d, t) && g.spc >= 1 && start >= 2 && nc >= 1 && Enough(g, data, nc) && Clba(g, start + nc) <= |d|
    requires start + nc <= TableSize(g) && start + nc <= EOC_MIN && Reach(g, |d|, start + nc) && Whole(mid)
    requires Clba(g, start) + SectorsOf(|data|) <= |d| && Copied(d, mid, Clba(g, start), data, SectorsOf(|data|))
    requires d' == PutLinks(g, mid, start, nc, nc)
    ensures Tables(g, d', WithLinks(t, start, nc, nc)) && OnlyFile(g, d, d', start, nc)
    ensures Placed(g, d', WithLinks(t, start, nc, nc), start, nc, data)
  {
    FileWritten(g, d, mid, start, nc, data, t);
    LinksTables(g, mid, t, start, nc);
    DataBelow(g, start);
    FileKept(g, mid, d', start, data, Fat1(g), DataLba(g));
    BothSteps(g, d, mid, d', start, nc);
    ChainDone(t, start, nc, start, nc);
  }

  /** The partition so far: equal tables, the directories with their chains, and the files among `efi` and `kernel`
      that have been written. */
  ghost predicate Built(g: Geo, d: Disk, t: seq<u32>, ds: Dirs, fs: Files, efi: bool, kernel: bool) {
    && Fits(g, d, fs) && InTable(g, fs) && Tables(g, d, t) && DirsIn(g, d, ds) && DirChains(t)
    && (efi ==> Placed(g, d, t, EFI_C, fs.efiN, fs.efi))
    && (kernel ==> Placed(g, d, t, EfiEnd(fs), fs.kernelN, fs.kernel))
  }

  lemma Order(g: Geo, fs: Files)
    requires g.spc >= 1 && fs.efiN >= 1 && fs.kernelN >= 1
    ensures CONF_C < EFI_C < EfiEnd(fs) < KernelEnd(fs)
    ensures DataLba(g) <= Clba(g, ROOT_C) <= Clba(g, CONF_C) < Clba(g, EFI_C) <= Clba(g, EfiEnd(fs)) <= Clba(g, KernelEnd(fs))
  {
    ClusterBelow(g, ROOT_C, CONF_C);
    ClusterLba(g, CONF_C, 1);
    ClusterBelow(g, EFI_C, EfiEnd(fs));
    ClusterBelow(g, EfiEnd(fs), KernelEnd(fs));
  }

  lemma EfiBuilt(g: Geo, d: Disk, mid: Disk, d': Disk, t: seq<u32>, ds: Dirs, fs: Files)
    requires Built(g, d, t, ds, fs, false, false) && Whole(mid) && Reach(g, |d|, EfiEnd(fs))
    requires Clba(g, EfiEnd(fs)) <= |d| && Clba(g, EFI_C) + SectorsOf(|fs.efi|) <= |d|
    requires Copied(d, mid, Clba(g, EFI_C), fs.efi, SectorsOf(|fs.efi|)) && d' == PutLinks(g, mid, EFI_C, fs.efiN, fs.efiN)
    ensures Built(g, d', WithLinks(t, EFI_C, fs.efiN, fs.efiN), ds, fs, true, false)
  {
    Order(g, fs);
    DirChainsKept(t, EFI_C, fs.efiN);
    FilePlaced(g, d, mid, d', EFI_C, fs.efiN, fs.efi, t);
    DirsKept(g, d, d', ds);
  }

  lemma KernelBuilt(g: Geo, d: Disk, mid: Disk, d': Disk, t: seq<u32>, ds: Dirs, fs: Files, efi: bool)
    requires Built(g, d, t, ds, fs, efi, false) && Whole(mid) && Reach(g, |d|, KernelEnd(fs))
    requires Clba(g, EfiEnd(fs)) + SectorsOf(|fs.kernel|) <= |d|
    requires Copied(d, mid, Clba(g, EfiEnd(fs)), fs.kernel, SectorsOf(|fs.kernel|))
    requires d' == PutLinks(g, mid, EfiEnd(fs), fs.kernelN, fs.kernelN)
    ensures Built(g, d', WithLinks(t, EfiEnd(fs), fs.kernelN, fs.kernelN), ds, fs, efi, true)
  {
    var start, nc := EfiEnd(fs), fs.kernelN;
    Order(g, fs);
    DirChainsKept(t, start, nc);
    FilePlaced(g, d, mid, d', start, nc, fs.kernel, t);
    DirsKept(g, d, d', ds);
    if efi {
      ChainDone(t, start, nc, EFI_C, fs.efiN);
      PlacedKept(g, d, d', t, WithLinks(t, start, nc, nc), EFI_C, fs.efiN, fs.efi);
    }
  }

  // ---- The same steps when chains leave the table ----------------------------------------------------------------

  ghost predicate Way(g: Geo, d: Disk, ds: Dirs, x: nat) { WaySwept(g, d, ds.root, ds.sysb, x) }

  lemma WayKept(g: Geo, d: Disk, d': Disk, ds: Dirs, x: nat)
    requires Way(g, d, ds, x) && g.spc >= 1 && Clba(g, CONF_C) <= |d| && |d'| == |d|
    requires forall k :: DataLba(g) <= k < Clba(g, CONF_C) ==> d'[k] == d[k]
    ensures Way(g, d', ds, x)
  {
    SweptSame(g, d, d', 0, ds.root, x);
    SweptSame(g, d, d', 3 * g.spc, ds.sysb, x);
  }

  lemma WayLinked(g: Geo, d: Disk, start: nat, nc: nat, ds: Dirs, x: nat)
    requires Way(g, d, ds, x) && Whole(d) && Reach(g, |d|, start + nc) && start + nc <= EOC_MIN && g.spc >= 1 && Clba(g, CONF_C) <= |d|
    requires g.fatSec >= 1 && TableSize(g) <= x && start <= x
    ensures Way(g, PutLinks(g, d, start, nc, nc), ds, Max(x, start + nc))
  {
    ChainSweeps(g, d, start, nc, 0, ds.root, x);
    ChainSweeps(g, d, start, nc, 3 * g.spc, ds.sysb, x);
  }

  /** A file written behind the directories, and its chain. */
  lemma WayFile(g: Geo, d: Disk, mid: Disk, start: nat, nc: nat, data: seq<byte>, ds: Dirs, x: nat)
    requires Way(g, d, ds, x) && Whole(mid) && start >= CONF_C && Reach(g, |d|, start + nc) && start + nc <= EOC_MIN
    requires g.spc >= 1 && g.fatSec >= 1 && TableSize(g) <= x && start <= x && Clba(g, CONF_C) <= |d|
    requires Clba(g, start) + SectorsOf(|data|) <= |d| && Copied(d, mid, Clba(g, start), data, SectorsOf(|data|))
    ensures Way(g, PutLinks(g, mid, start, nc, nc), ds, Max(x, start + nc))
  {
    ClusterBelow(g, CONF_C, start);
    WayKept(g, d, mid, ds, x);
    WayLinked(g, mid, start, nc, ds, x);
  }

  /** Links change no sector below the first copy or behind the place of the last. */
  lemma LinkFrame(g: Geo, d: Disk, start: nat, nc: nat, i: nat, hi: nat)
    requires Whole(d) && Reach(g, |d|, start + nc) && i < nc && start + nc <= EOC_MIN && Fat2(g) + (start + nc) / PER_SECTOR < hi
    ensures SameBut(d, PutLink(g, d, start, nc, i), Fat1(g), hi)
  {
  }

  ghost predicate SameFor(d: Disk, size: nat, lo: nat, hi: nat, y: Disk) { Whole(y) && |y| == size && SameBut(d, y, lo, hi) }

  lemma LinkerFrame(g: Geo, d: Disk, start: nat, nc: nat, hi: nat, y: Disk, j: nat)
    requires Reach(g, |d|, start + nc) && j < nc && start + nc <= EOC_MIN && Fat2(g) + (start + nc) / PER_SECTOR < hi
    requires SameFor(d, |d|, Fat1(g), hi, y)
    ensures SameFor(d, |d|, Fat1(g), hi, Linker(g, |d|, start, nc)(y, j))
  {
    LinkFrame(g, y, start, nc, j, hi);
  }

  lemma LinksFrame(g: Geo, d: Disk, start: nat, nc: nat, hi: nat)
    requires Whole(d) && Reach(g, |d|, start + nc) && start + nc <= EOC_MIN && Fat2(g) + (start + nc) / PER_SECTOR < hi
    ensures SameBut(d, PutLinks(g, d, start, nc, nc), Fat1(g), hi)
  {
    var put := Linker(g, |d|, start, nc);
    var inv := (y: Disk, j: nat) => SameFor(d, |d|, Fat1(g), hi, y);
    forall y, j: nat | inv(y, j) && j < nc ensures inv(put(y, j), j + 1) { LinkerFrame(g, d, start, nc, hi, y, j); }
    IterateKeeps(put, inv, d, nc, nc);
  }

  lemma FileFrame(g: Geo, d: Disk, mid: Disk, start: nat, nc: nat, data: seq<byte>, end: nat)
    requires g.spc >= 1 && g.fatSec >= 1 && 3 <= start <= start + nc <= end && start + nc <= EOC_MIN && Clba(g, end) <= |d|
    requires Whole(mid) && Enough(g, data, nc) && Clba(g, start) + SectorsOf(|data|) <= |d|
    requires Copied(d, mid, Clba(g, start), data, SectorsOf(|data|))
    ensures Reach(g, |d|, start + nc) && SameBut(d, PutLinks(g, mid, start, nc, nc), Fat1(g), Clba(g, end))
  {
    EndFits(g, start + nc);
    ClusterBelow(g, start + nc, end);
    ClusterLba(g, start, nc);
    LinksFrame(g, mid, start, nc, Clba(g, end));
    DataBelow(g, start);
  }

  // ---- The steps, in both cases -------------------------------------------------------------------------------------

  method PlaceEfi(target: Target, g: Geo, fs: Files, ghost t: seq<u32>, ghost ds: Dirs) returns (ghost t': seq<u32>)
    requires target.Valid() && Fits(g, target.Disk(), fs) && Way(g, target.Disk(), ds, TableSize(g))
    requires InTable(g, fs) ==> Built(g, target.Disk(), t, ds, fs, false, false)
    modifies target.drive`sectors
    ensures target.Valid() && SameBut(old(target.Disk()), target.Disk(), Fat1(g), Clba(g, KernelEnd(fs)))
    ensures InTable(g, fs) ==> Built(g, target.Disk(), t', ds, fs, fs.efi != [], false)
    ensures Way(g, target.Disk(), ds, Max(TableSize(g), EfiEnd(fs)))
  {
    t' := t;
    Order(g, fs);
    if fs.efi != [] {
      ghost var d := target.Disk();
      EndFits(g, EfiEnd(fs));
      ghost var mid := AddFile(target, g, fs.efi, EFI_C, fs.efiN);
      FileFrame(g, d, mid, EFI_C, fs.efiN, fs.efi, KernelEnd(fs));
      WayFile(g, d, mid, EFI_C, fs.efiN, fs.efi, ds, TableSize(g));
      if InTable(g, fs) {
        EfiBuilt(g, d, mid, target.Disk(), t, ds, fs);
        t' := WithLinks(t, EFI_C, fs.efiN, fs.efiN);
      }
    }
  }

  method PlaceKernel(target: Target, g: Geo, fs: Files, ghost t: seq<u32>, ghost ds: Dirs) returns (ghost t': seq<u32>)
    requires target.Valid() && Fits(g, target.Disk(), fs) && Way(g, target.Disk(), ds, Max(TableSize(g), EfiEnd(fs)))
    requires InTable(g, fs) ==> Built(g, target.Disk(), t, ds, fs, fs.efi != [], false)
    modifies target.drive`sectors
    ensures target.Valid() && SameBut(old(target.Disk()), target.Disk(), Fat1(g), Clba(g, KernelEnd(fs)))
    ensures InTable(g, fs) ==> Built(g, target.Disk(), t', ds, fs, fs.efi != [], fs.kernel != [])
    ensures fs.kernel != [] && !InTable(g, fs) ==>
              Way(g, target.Disk(), ds, KernelEnd(fs)) && Linked(g, target.Disk(), EfiEnd(fs), KernelEnd(fs))
  {
    t' := t;
    Order(g, fs);
    if fs.kernel != [] {
      ghost var d := target.Disk();
      EndFits(g, KernelEnd(fs));
      ghost var mid := AddFile(target, g, fs.kernel, EfiEnd(fs), fs.kernelN);
      FileFrame(g, d, mid, EfiEnd(fs), fs.kernelN, fs.kernel, KernelEnd(fs));
      if InTable(g, fs) {
        KernelBuilt(g, d, mid, target.Disk(), t, ds, fs, fs.efi != []);
        t' := WithLinks(t, EfiEnd(fs), fs.kernelN, fs.kernelN);
      } else {
        KernelOverruns(g, d, mid, fs, ds);
      }
    }
  }

  lemma KernelOverruns(g: Geo, d: Disk, mid: Disk, fs: Files, ds: Dirs)
    requires Fits(g, d, fs) && !InTable(g, fs) && Way(g, d, ds, Max(TableSize(g), EfiEnd(fs))) && Whole(mid)
    requires Reach(g, |d|, KernelEnd(fs)) && Clba(g, EfiEnd(fs)) + SectorsOf(|fs.kernel|) <= |d|
    requires Copied(d, mid, Clba(g, EfiEnd(fs)), fs.kernel, SectorsOf(|fs.kernel|))
    ensures var r := PutLinks(g, mid, EfiEnd(fs), fs.kernelN, fs.kernelN);
            Way(g, r, ds, KernelEnd(fs)) && Linked(g, r, EfiEnd(fs), KernelEnd(fs))
  {
    Order(g, fs);
    WayFile(g, d, mid, EfiEnd(fs), fs.kernelN, fs.kernel, ds, Max(TableSize(g), EfiEnd(fs)));
    ChainLinks(g, mid, EfiEnd(fs), fs.kernelN);
  }

  /** What lies above the configuration's cluster is kept while it is written. */
  lemma AboveConf(g: Geo, d: Disk, d': Disk, t: seq<u32>, t': seq<u32>, ds: Dirs, fs: Files, efi: bool, kernel: bool)
    requires Built(g, d, t, ds, fs, efi, kernel) && Tables(g, d', t') && t' == WithLinks(t, CONF_C, 1, 1) && |d'| == |d|
    requires forall k :: 0 <= k < |d| && !(Fat1(g) <= k < DataLba(g)) && !(Clba(g, CONF_C) <= k < Clba(g, EFI_C)) ==> d'[k] == d[k]
    ensures Built(g, d', t', ds, fs, efi, kernel)
  {
    Order(g, fs);
    DirsKept(g, d, d', ds);
    DirChainsKept(t, CONF_C, 1);
    if efi {
      ChainDone(t, CONF_C, 1, EFI_C, fs.efiN);
      PlacedKept(g, d, d', t, t', EFI_C, fs.efiN, fs.efi);
    }
    if kernel {
      ChainDone(t, CONF_C, 1, EfiEnd(fs), fs.kernelN);
      PlacedKept(g, d, d', t, t', EfiEnd(fs), fs.kernelN, fs.kernel);
    }
  }

  lemma ConfBuilt(g: Geo, d: Disk, mid: Disk, d': Disk, t: seq<u32>, ds: Dirs, fs: Files, efi: bool, kernel: bool)
    requires Built(g, d, t, ds, fs, efi, kernel) && Reach(g, |d|, EFI_C) && mid == PutLinks(g, d, CONF_C, 1, 1) && Whole(d')
    requires |mid| == |d| && Clba(g, CONF_C) + SectorsOf(|fs.conf|) <= |d|
    requires Copied(mid, d', Clba(g, CONF_C), fs.conf, SectorsOf(|fs.conf|))
    ensures var t' := WithLinks(t, CONF_C, 1, 1);
            Built(g, d', t', ds, fs, efi, kernel) && Placed(g, d', t', CONF_C, 1, fs.conf)
  {
    var t' := WithLinks(t, CONF_C, 1, 1);
    Order(g, fs);
    LinksTables(g, d, t, CONF_C, 1);
    ClusterLba(g, CONF_C, 1);
    TablesKept(g, mid, d', Clba(g, CONF_C), Clba(g, EFI_C), t');
    ChainDone(t, CONF_C, 1, CONF_C, 1);
    AboveConf(g, d, d', t, t', ds, fs, efi, kernel);
  }

  lemma ConfWay(g: Geo, d: Disk, d': Disk, fs: Files, ds: Dirs)
    requires Fits(g, d, fs) && !InTable(g, fs) && Reach(g, |d|, EFI_C) && Way(g, d, ds, KernelEnd(fs))
    requires Linked(g, d, EfiEnd(fs), KernelEnd(fs)) && |PutLinks(g, d, CONF_C, 1, 1)| == |d|
    requires Clba(g, CONF_C) + SectorsOf(|fs.conf|) <= |d| && Whole(d')
    requires Copied(PutLinks(g, d, CONF_C, 1, 1), d', Clba(g, CONF_C), fs.conf, SectorsOf(|fs.conf|))
    ensures Way(g, d', ds, KernelEnd(fs)) && Linked(g, d', EfiEnd(fs), KernelEnd(fs))
  {
    Order(g, fs);
    var mid := PutLinks(g, d, CONF_C, 1, 1);
    WayLinked(g, d, CONF_C, 1, ds, KernelEnd(fs));
    WayKept(g, mid, d', ds, KernelEnd(fs));
    ChainKeeps(g, d, CONF_C, 1, EfiEnd(fs), KernelEnd(fs));
    LinkedKept(g, mid, d', EfiEnd(fs), KernelEnd(fs));
  }

  method PlaceConf(target: Target, g: Geo, fs: Files, ghost t: seq<u32>, ghost ds: Dirs) returns (ghost t': seq<u32>)
    requires target.Valid() && Fits(g, target.Disk(), fs)
    requires InTable(g, fs) ==> Built(g, target.Disk(), t, ds, fs, fs.efi != [], fs.kernel != [])
    requires fs.kernel != [] && !InTable(g, fs) ==>
               Way(g, target.Disk(), ds, KernelEnd(fs)) && Linked(g, target.Disk(), EfiEnd(fs), KernelEnd(fs))
    modifies target.drive`sectors
    ensures target.Valid() && SameBut(old(target.Disk()), target.Disk(), Fat1(g), Clba(g, KernelEnd(fs)))
    ensures InTable(g, fs) ==> Built(g, target.Disk(), t', ds, fs, fs.efi != [], fs.kernel != [])
                               && Placed(g, target.Disk(), t', CONF_C, 1, fs.conf)
    ensures fs.kernel != [] && !InTable(g, fs) ==>
              Way(g, target.Disk(), ds, KernelEnd(fs)) && Linked(g, target.Disk(), EfiEnd(fs), KernelEnd(fs))
  {
    t' := t;
    ghost var d := target.Disk();
    Order(g, fs);
    EndFits(g, EFI_C);
    LinksFrame(g, d, CONF_C, 1, Clba(g, EFI_C));
    target.WriteChain(g, CONF_C, 1);
    ghost var mid := target.Disk();
    ClusterLba(g, CONF_C, 1);
    WriteConf(target, Clba(g, CONF_C), fs.conf);
    if InTable(g, fs) {
      ConfBuilt(g, d, mid, target.Disk(), t, ds, fs, fs.efi != [], fs.kernel != []);
      t' := WithLinks(t, CONF_C, 1, 1);
    } else if fs.kernel != [] {
      ConfWay(g, d, target.Disk(), fs, ds);
    }
  }

  /** The chains of the files. */
  ghost predicate FileChains(t: seq<u32>, fs: Files) {
    && HasChain(t, CONF_C, 1)
    && (fs.efi != [] ==> HasChain(t, EFI_C, fs.efiN))
    && (fs.kernel != [] ==> HasChain(t, EfiEnd(fs), fs.kernelN))
  }

  /** Both copies of the table agree, every chain is exactly the clusters of its directory or file, and every file is
      read back by its path through either copy. */
  ghost predicate Installed(g: Geo, d: Disk, fs: Files) {
    && Whole(d) && DataLba(g) <= |d|
    && Table(d, Fat1(g), g.fatSec) == Table(d, Fat2(g), g.fatSec)
    && DirChains(Table(d, Fat1(g), g.fatSec)) && FileChains(Table(d, Fat1(g), g.fatSec), fs)
    && Readable(g, d, Fat1(g), fs) && Readable(g, d, Fat2(g), fs)
  }

  /** Everything is in place. */
  ghost predicate Complete(g: Geo, d: Disk, t: seq<u32>, ds: Dirs, fs: Files) {
    && Built(g, d, t, ds, fs, fs.efi != [], fs.kernel != []) && Placed(g, d, t, CONF_C, 1, fs.conf) && Lists(ds, fs)
  }

  ghost predicate Done(g: Geo, d: Disk, fs: Files) { exists t, ds :: Complete(g, d, t, ds, fs) }

  /** A complete partition is readable. */
  lemma DoneInstalled(g: Geo, d: Disk, fs: Files)
    requires Done(g, d, fs)
    ensures Installed(g, d, fs)
  {
    var t, ds :| Complete(g, d, t, ds, fs);
    PathsReadable(g, d, Fat1(g), t, ds, fs);
    PathsReadable(g, d, Fat2(g), t, ds, fs);
  }

  lemma BuiltKept(g: Geo, d: Disk, d': Disk, t: seq<u32>, ds: Dirs, fs: Files, efi: bool, kernel: bool)
    requires Built(g, d, t, ds, fs, efi, kernel) && Placed(g, d, t, CONF_C, 1, fs.conf)
    requires Whole(d') && |d'| == |d| && forall k :: g.start <= k < Clba(g, KernelEnd(fs)) ==> d'[k] == d[k]
    ensures Built(g, d', t, ds, fs, efi, kernel) && Placed(g, d', t, CONF_C, 1, fs.conf)
  {
    Order(g, fs);
    TableSame(d, d', Fat1(g), g.fatSec);
    TableSame(d, d', Fat2(g), g.fatSec);
    DirsKept(g, d, d', ds);
    PlacedKept(g, d, d', t, t, CONF_C, 1, fs.conf);
    if efi { PlacedKept(g, d, d', t, t, EFI_C, fs.efiN, fs.efi); }
    if kernel { PlacedKept(g, d, d', t, t, EfiEnd(fs), fs.kernelN, fs.kernel); }
  }

  /** It stays complete while only sectors before it or behind its last cluster change. */
  lemma DoneKept(g: Geo, d: Disk, d': Disk, fs: Files)
    requires Done(g, d, fs) && Whole(d') && |d'| == |d| && forall k :: g.start <= k < Clba(g, KernelEnd(fs)) ==> d'[k] == d[k]
    ensures Done(g, d', fs)
  {
    var t, ds :| Complete(g, d, t, ds, fs);
    BuiltKept(g, d, d', t, ds, fs, fs.efi != [], fs.kernel != []);
    assert Complete(g, d', t, ds, fs);
  }

  /** Boot sector and information sector, with their backups. */
  method BootSectors(target: Target, g: Geo, vbr: seq<byte>, fsi: seq<byte>)
    requires target.Valid() && Fat1(g) <= |target.Disk()| && |vbr| == |fsi| == SECTOR
    modifies target.drive`sectors
    ensures target.Valid() && SameBut(old(target.Disk()), target.Disk(), g.start, Fat1(g))
    ensures target.Disk()[g.start] == target.Disk()[g.start + 6] == vbr
    ensures target.Disk()[g.start + 1] == target.Disk()[g.start + 7] == fsi
  {
    target.PutSector(g.start, vbr);
    target.PutSector(g.start + 1, fsi);
    target.PutSector(g.start + 6, vbr);
    target.PutSector(g.start + 7, fsi);
  }

  /** Fresh directories have not been run over. */
  lemma WayStarts(g: Geo, d: Disk, ds: Dirs)
    requires DirsIn(g, d, ds) && |ds.root| == |ds.sysb| == SECTOR
    ensures Way(g, d, ds, TableSize(g))
  {
    assert Clba(g, ROOT_C) == DataLba(g) + 0 && Clba(g, SYSB_C) == DataLba(g) + 3 * g.spc;
  }

  /** The chain of the kernel has left the table. */
  ghost predicate RanOver(g: Geo, d: Disk, ds: Dirs, fs: Files) {
    && Fits(g, d, fs) && !InTable(g, fs) && fs.kernel != [] && Leads(ds.root, ds.sysb, EfiEnd(fs), |fs.kernel|)
    && Way(g, d, ds, KernelEnd(fs)) && Linked(g, d, EfiEnd(fs), KernelEnd(fs))
  }

  ghost predicate Overrun(g: Geo, d: Disk, fs: Files) { exists ds :: RanOver(g, d, ds, fs) }

  /** Then the kernel is not found. */
  lemma KernelLost(g: Geo, d: Disk, fs: Files)
    requires Overrun(g, d, fs)
    ensures Lost(g, d)
  {
    var ds :| RanOver(g, d, ds, fs);
    DirsBelow(g, d, fs);
    TooShort(g, d, EfiEnd(fs), fs.kernelN, |fs.kernel|, ATTR_FILE);
    LostByPath(g, d, ds, KernelEnd(fs), EfiEnd(fs), |fs.kernel|);
  }

  lemma OverrunKept(g: Geo, d: Disk, d': Disk, fs: Files)
    requires Overrun(g, d, fs) && Whole(d') && |d'| == |d| && forall k :: g.start <= k < Clba(g, KernelEnd(fs)) ==> d'[k] == d[k]
    ensures Overrun(g, d', fs)
  {
    var ds :| RanOver(g, d, ds, fs);
    Order(g, fs);
    WayKept(g, d, d', ds, KernelEnd(fs));
    LinkedKept(g, d, d', EfiEnd(fs), KernelEnd(fs));
    assert RanOver(g, d', ds, fs);
  }

  lemma DirsBelow(g: Geo, d: Disk, fs: Files)
    requires Fits(g, d, fs)
    ensures DataLba(g) <= |d| && DataLba(g) + 3 * g.spc < |d|
  {
    Order(g, fs);
  }

  lemma LostByPath(g: Geo, d: Disk, ds: Dirs, x: nat, start: nat, size: nat)
    requires Whole(d) && DataLba(g) <= |d| && DataLba(g) + 3 * g.spc < |d|
    requires Way(g, d, ds, x) && Leads(ds.root, ds.sysb, start, size)
    requires ReadFile(g, d, Fat1(g), Item(start, size, ATTR_FILE)).None?
    ensures Lost(g, d)
  {
    KernelUnreadable(g, d, ds.root, ds.sysb, x, Item(start, size, ATTR_FILE));
  }

  /** Empty tables, and the directories with their chains. */
  method LayDirs(target: Target, g: Geo, fs: Files, cksum: byte) returns (ds: Dirs, ghost t: seq<u32>)
    requires target.Valid() && Fits(g, target.Disk(), fs)
    modifies target.drive`sectors
    ensures target.Valid() && SameBut(old(target.Disk()), target.Disk(), Fat1(g), Clba(g, CONF_C))
    ensures Lists(ds, fs) && Leads(ds.root, ds.sysb, EfiEnd(fs), |fs.kernel|)
    ensures Tables(g, target.Disk(), t) && DirsIn(g, target.Disk(), ds) && DirChains(t) && Way(g, target.Disk(), ds, TableSize(g))
  {
    Order(g, fs);
    InitTables(target, g);
    t := Table(target.Disk(), Fat1(g), g.fatSec);
    ds := BuildDirs(fs, cksum);
    WriteDirs(target, g, ds, t);
    ghost var d := target.Disk();
    t := ChainDirs(target, g, t);
    DirsKept(g, d, target.Disk(), ds);
    WayStarts(g, target.Disk(), ds);
  }

  ghost predicate StartsWith(d: Disk, start: nat, vbr: seq<byte>) { start < |d| && d[start] == vbr }

  /** Boot sectors, tables, directories and files, in this order: the partition is complete if every cluster used has
      an entry in the table, and else the kernel is not found. */
  method LayOut(target: Target, g: Geo, fs: Files, vbr: seq<byte>, fsi: seq<byte>, cksum: byte)
    requires target.Valid() && Fits(g, target.Disk(), fs) && |vbr| == |fsi| == SECTOR
    modifies target.drive`sectors
    ensures target.Valid() && SameBut(old(target.Disk()), target.Disk(), g.start, Clba(g, KernelEnd(fs)))
    ensures StartsWith(target.Disk(), g.start, vbr)
    ensures InTable(g, fs) ==> Done(g, target.Disk(), fs)
    ensures !InTable(g, fs) && fs.kernel != [] ==> Overrun(g, target.Disk(), fs)
  {
    Order(g, fs);
    BootSectors(target, g, vbr, fsi);
    var ds: Dirs;
    ghost var t: seq<u32>;
    ds, t := LayDirs(target, g, fs, cksum);
    t := PlaceEfi(target, g, fs, t, ds);
    t := PlaceKernel(target, g, fs, t, ds);
    t := PlaceConf(target, g, fs, t, ds);
    if InTable(g, fs) {
      assert Complete(g, target.Disk(), t, ds, fs);
    } else if fs.kernel != [] {
      assert RanOver(g, target.Disk(), ds, fs);
    }
  }

  /** The kernel is not found at its path through the first copy of the table. */
  ghost predicate Lost(g: Geo, d: Disk) {
    Whole(d) && DataLba(g) <= |d| && ReadPath(g, d, Fat1(g), ROOT_C, [BOOT, KERNEL]).None?
  }

  /** The files with the clusters they get. */
  function Plan(g: Geo, conf: seq<byte>, efi: seq<byte>, kernel: seq<byte>): Files
    requires g.spc >= 1
  {
    Files(conf, efi, kernel, ClustersFor(g, |efi|), ClustersFor(g, |kernel|))
  }

  lemma PlanFits(g: Geo, d: Disk, conf: seq<byte>, efi: seq<byte>, kernel: seq<byte>)
    requires Whole(d) && g.spc >= 1 && g.fatSec >= 1 && 0 < |conf| <= g.spc * SECTOR && |conf| < 0x1_0000_0000
    requires |efi| < 0x1_0000_0000 && |kernel| < 0x1_0000_0000
    requires var end := KernelEnd(Plan(g, conf, efi, kernel)); end <= EOC_MIN && Clba(g, end) <= |d|
    ensures Fits(g, d, Plan(g, conf, efi, kernel))
  {
    PlanEnough(g, efi);
    PlanEnough(g, kernel);
    OneEnough(g, conf);
    if kernel != [] { LastClusterNeeded(g, |kernel|); }
  }

  lemma PlanEnough(g: Geo, data: seq<byte>)
    requires g.spc >= 1
    ensures Enough(g, data, ClustersFor(g, |data|)) && (data == [] ==> ClustersFor(g, |data|) == 1)
  {
    ClustersHold(g, |data|);
  }

  lemma OneEnough(g: Geo, data: seq<byte>)
    requires |data| <= g.spc * SECTOR
    ensures Enough(g, data, 1)
  {
  }

  lemma LastClusterNeeded(g: Geo, size: nat)
    requires g.spc >= 1 && size > 0
    ensures size > (ClustersFor(g, size) - 1) * (g.spc * SECTOR)
  {
    var cb := g.spc * SECTOR;
    var n := (size + cb - 1) / cb;
    assert cb * n <= size + cb - 1;
    assert (n - 1) * cb == cb * n - cb;
  }

  /** Steps 4 to 7 of `do_install`, for files that lie on the disk: with a kernel, every file is read back by its path if
      and only if the last cluster used has an entry in the table. */
  method InstallEsp(target: Target, g: Geo, conf: seq<byte>, efi: seq<byte>, kernel: seq<byte>,
                    vbr: seq<byte>, fsi: seq<byte>, cksum: byte) returns (fs: Files)
    requires target.Valid() && g.spc >= 1 && g.fatSec >= 1 && 0 < |conf| <= g.spc * SECTOR && |conf| < 0x1_0000_0000
    requires |efi| < 0x1_0000_0000 && |kernel| < 0x1_0000_0000 && |vbr| == |fsi| == SECTOR
    requires var end := KernelEnd(Plan(g, conf, efi, kernel)); end <= EOC_MIN && Clba(g, end) <= |target.Disk()|
    modifies target.drive`sectors
    ensures target.Valid() && fs == Plan(g, conf, efi, kernel)
    ensures SameBut(old(target.Disk()), target.Disk(), g.start, Clba(g, KernelEnd(fs)))
    ensures InTable(g, fs) ==> Installed(g, target.Disk(), fs)
    ensures kernel != [] ==> (Installed(g, target.Disk(), fs) <==> InTable(g, fs))
  {
    fs := Plan(g, conf, efi, kernel);
    PlanFits(g, target.Disk(), conf, efi, kernel);
    LayOut(target, g, fs, vbr, fsi, cksum);
    if InTable(g, fs) { DoneInstalled(g, target.Disk(), fs); } else if kernel != [] { KernelLost(g, target.Disk(), fs); }
  }

  /** Files share no cluster, whichever way their chains are followed. */
  lemma ChainsApart(t: seq<u32>, fs: Files, c: nat)
    requires FileChains(t, fs) && DirChains(t) && fs.efi != [] && fs.kernel != [] && fs.efiN >= 1 && fs.kernelN >= 1
    ensures c in Follow(t, EFI_C, |t|) ==> c !in Follow(t, EfiEnd(fs), |t|) && c !in Follow(t, CONF_C, |t|)
    ensures c in Follow(t, EfiEnd(fs), |t|) ==> c !in Follow(t, CONF_C, |t|)
    ensures c in Follow(t, ROOT_C, |t|) ==> c == ROOT_C
  {
    FollowChain(t, EFI_C, fs.efiN, 0, |t|);
    FollowChain(t, EfiEnd(fs), fs.kernelN, 0, |t|);
    FollowChain(t, CONF_C, 1, 0, |t|);
    FollowChain(t, ROOT_C, 1, 0, |t|);
  }
}
