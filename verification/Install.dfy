/** The whole installation: partition table, system partition and identity record on one disk. */
module Install {
  import opened Bytes
  import opened Sectors
  import opened Drives
  import opened Fat32
  import opened Gpt
  import opened Installer
  import D = EspDirs
  import E = EspInstall
  import Y = EspGeometry
  import G = GptDisk

  /** Everything the parser needs, in both places. */
  ghost predicate TableOn(d: Disk, l: G.Layout, crc: seq<byte> -> u32) {
    && G.Sensible(l) && Whole(d) && |d| == l.sectors && d[0][TYPE_AT] == PROTECTIVE
    && G.HasHeader(d, 1, G.Primary(l, crc), crc) && G.HasEntries(d, 2, l)
    && G.HasHeader(d, l.sectors - 1, G.Backup(l, crc), crc) && G.HasEntries(d, l.sectors - 33, l)
  }

  /** Writes between the first usable and the last usable sector do not touch the table. */
  lemma TableKept(d: Disk, d': Disk, l: G.Layout, crc: seq<byte> -> u32, lo: nat, hi: nat)
    requires TableOn(d, l, crc) && E.SameBut(d, d', lo, hi) && Whole(d') && 34 <= lo && hi <= l.sectors - 33
    ensures TableOn(d', l, crc)
  {
    JoinSame(d, d', 2, ENTRY_SECTORS);
    JoinSame(d, d', l.sectors - 33, ENTRY_SECTORS);
  }

  /** The protective record. */
  method BuildMbr(sectors: nat) returns (r: seq<byte>)
    requires sectors >= 1
    ensures |r| == SECTOR && r[TYPE_AT] == PROTECTIVE && r[510] == 0x55 && r[511] == 0xAA
    ensures FromLe32(r[454..458]) == 1 && FromLe32(r[458..462]) == Min(sectors - 1, 0xFFFF_FFFF)
  {
    var mbr := new byte[SECTOR](_ => 0);
    mbr[448] := 2;
    mbr[TYPE_AT] := PROTECTIVE;
    mbr[451], mbr[452], mbr[453] := 0xFF, 0xFF, 0xFF;
    CopyIn(mbr, 454, ToLe(4, 1));
    var n := Min(sectors - 1, 0xFFFF_FFFF);
    CopyIn(mbr, 458, ToLe(4, n));
    mbr[510], mbr[511] := 0x55, 0xAA;
    r := mbr[..];
    assert r[454..458] == ToLe(4, 1) && r[458..462] == ToLe(4, n);
    LeRoundTrip32(1);
    LeRoundTrip32(n);
  }

  /** The entries, sector by sector. */
  method WriteEntries(target: Target, lba: nat, entries: seq<byte>)
    requires target.Valid() && |entries| == ENTRY_SECTORS * SECTOR && lba + ENTRY_SECTORS <= |target.Disk()|
    modifies target.drive`sectors
    ensures target.Valid() && E.SameBut(old(target.Disk()), target.Disk(), lba, lba + ENTRY_SECTORS)
    ensures Join(target.Disk(), lba, ENTRY_SECTORS) == entries
  {
    assert SectorsOf(|entries|) == ENTRY_SECTORS;
    target.WriteFull(lba, entries, 0, ENTRY_SECTORS, target.Disk());
    JoinFile(target.Disk(), lba, entries, ENTRY_SECTORS);
  }

  /** The two headers: the second is the first, patched. */
  method WriteHeaders(target: Target, l: G.Layout, crc: seq<byte> -> u32)
    requires target.Valid() && G.Sensible(l) && |target.Disk()| == l.sectors
    modifies target.drive`sectors
    ensures target.Valid() && |target.Disk()| == l.sectors
    ensures forall k :: 0 <= k < l.sectors && k != 1 && k != l.sectors - 1 ==> target.Disk()[k] == old(target.Disk())[k]
    ensures G.HasHeader(target.Disk(), 1, G.Primary(l, crc), crc)
    ensures G.HasHeader(target.Disk(), l.sectors - 1, G.Backup(l, crc), crc)
  {
    var h := G.Primary(l, crc);
    var hdr := new byte[SECTOR](_ => 0);
    G.HeaderFields(hdr, h);
    G.StampCrc(hdr, h, crc);
    var first := hdr[..];
    target.PutSector(1, first);
    G.TurnIntoBackup(hdr, h, HeaderCrc(h, crc), l.sectors - 33);
    var b := G.Backup(l, crc);
    G.StampCrc(hdr, b, crc);
    var second := hdr[..];
    target.PutSector(l.sectors - 1, second);
    assert first[..HEADER_SIZE] == EncodeHeader(h, HeaderCrc(h, crc));
    assert second[..HEADER_SIZE] == EncodeHeader(b, HeaderCrc(b, crc));
  }

  /** Steps 1 to 3 of `do_install`. */
  method InstallTable(target: Target, l: G.Layout, crc: seq<byte> -> u32)
    requires target.Valid() && G.Sensible(l) && |target.Disk()| == l.sectors
    modifies target.drive`sectors
    ensures target.Valid() && TableOn(target.Disk(), l, crc)
  {
    var mbr := BuildMbr(l.sectors);
    target.PutSector(0, mbr);
    var entries := G.BuildEntries(l);
    WriteEntries(target, 2, entries);
    ghost var d1 := target.Disk();
    WriteEntries(target, l.sectors - 33, entries);
    ghost var d2 := target.Disk();
    WriteHeaders(target, l, crc);
    ghost var d3 := target.Disk();
    JoinSame(d1, d2, 2, ENTRY_SECTORS);
    JoinSame(d2, d3, 2, ENTRY_SECTORS);
    JoinSame(d2, d3, l.sectors - 33, ENTRY_SECTORS);
  }

  /** The partition's sectors as the installer counts them, in 32 bits. */
  function Total(l: G.Layout): nat { l.espSectors % LBA32 }

  /** The geometry the installer computes. */
  function Geometry(l: G.Layout): Geo
    requires Total(l) >= Y.LEAST
  {
    Y.GeoOf(G.ESP_START, Total(l), Y.Spc(Total(l)))
  }

  /** The files have clusters on the partition, and no more than links can name. */
  predicate Planned(l: G.Layout, fs: E.Files) {
    && Total(l) >= Y.LEAST
    && E.KernelEnd(fs) <= Y.DataClusters(Total(l), Y.Spc(Total(l))) + 2 && E.KernelEnd(fs) <= EOC_MIN
  }

  lemma PlannedInside(l: G.Layout, fs: E.Files)
    requires G.Sensible(l) && Planned(l, fs)
    ensures var g := Geometry(l);
            && 1 <= g.fatSec < LBA32 && 1 <= g.spc < 256
            && Clba(g, E.KernelEnd(fs)) <= G.RootStart(l) < l.sectors
  {
    Inside(l.espSectors, Total(l), Y.Spc(Total(l)), E.KernelEnd(fs));
  }

  lemma Inside(espSectors: nat, total: nat, s: nat, end: nat)
    requires Y.LEAST <= total < LBA32 && total <= espSectors && s in {1, 2, 4, 8} && 2 <= end <= Y.DataClusters(total, s) + 2
    ensures var g := Y.GeoOf(G.ESP_START, total, s);
            1 <= g.fatSec < LBA32 && 1 <= g.spc < 256 && Clba(g, end) <= G.ESP_START + espSectors
  {
    Y.ClustersInside(G.ESP_START, total, s);
    Y.TableSmall(total, s);
    Y.EndInside(G.ESP_START, total, s, end);
  }

  /** What the installed disk holds: the partition table in both places, a boot sector that tells the geometry, and the
      system partition, complete if every cluster used has an entry in the table, and else with its kernel's chain
      past the end of the table. */
  ghost predicate AllOn(d: Disk, l: G.Layout, crc: seq<byte> -> u32, g: Geo, fs: E.Files) {
    && TableOn(d, l, crc) && g.start == G.ESP_START && Y.GeoAt(d[G.ESP_START], G.ESP_START) == Some(g)
    && (E.InTable(g, fs) ==> E.Done(g, d, fs))
    && (!E.InTable(g, fs) && fs.kernel != [] ==> E.Overrun(g, d, fs))
  }

  /** The whole of `do_install`, for every disk and partition size, with the geometry it computes. */
  method InstallAll(target: Target, l: G.Layout, crc: seq<byte> -> u32, conf: seq<byte>, efi: seq<byte>, kernel: seq<byte>,
                    fsi: seq<byte>, cksum: byte, id: seq<byte>) returns (g: Geo, fs: E.Files)
    requires target.Valid() && G.Sensible(l) && |target.Disk()| == l.sectors && |fsi| == |id| == SECTOR
    requires 0 < |conf| <= SECTOR && |efi| < 0x1_0000_0000 && |kernel| < 0x1_0000_0000
    requires Total(l) >= Y.LEAST && Planned(l, E.Plan(Geometry(l), conf, efi, kernel))
    modifies target.drive`sectors
    ensures target.Valid() && g == Geometry(l) && fs == E.Plan(g, conf, efi, kernel)
    ensures AllOn(target.Disk(), l, crc, g, fs) && target.Disk()[G.RootStart(l)] == id
  {
    InstallTable(target, l, crc);
    ghost var d := target.Disk();
    var s := Y.PickSpc(Total(l));
    Y.SpcUnique(Total(l), s, Y.Spc(Total(l)));
    g := Y.GeoOf(G.ESP_START, Total(l), s);
    fs := E.Plan(g, conf, efi, kernel);
    PlannedInside(l, fs);
    E.PlanFits(g, d, conf, efi, kernel);
    var vbr := Y.BuildVbr(g, Total(l));
    E.LayOut(target, g, fs, vbr, fsi, cksum);
    ghost var d1 := target.Disk();
    TableKept(d, d1, l, crc, g.start, Clba(g, E.KernelEnd(fs)));
    target.PutSector(G.RootStart(l), id);
    AllKept(d1, target.Disk(), l, crc, g, fs, G.RootStart(l), G.RootStart(l) + 1);
  }

  /** Writes behind the files, up to the last usable sector, change nothing of it. */
  lemma AllKept(d: Disk, d': Disk, l: G.Layout, crc: seq<byte> -> u32, g: Geo, fs: E.Files, lo: nat, hi: nat)
    requires AllOn(d, l, crc, g, fs) && E.SameBut(d, d', lo, hi) && Whole(d') && Clba(g, E.KernelEnd(fs)) <= lo
    requires G.ESP_START < lo && hi <= l.sectors - 33
    ensures AllOn(d', l, crc, g, fs)
  {
    TableKept(d, d', l, crc, lo, hi);
    if E.InTable(g, fs) { E.DoneKept(g, d, d', fs); } else if fs.kernel != [] { E.OverrunKept(g, d, d', fs); }
  }

  /** The parser finds exactly the two partitions that were written. */
  lemma TableReadable(d: Disk, l: G.Layout, crc: seq<byte> -> u32)
    requires TableOn(d, l, crc)
    ensures G.Parse(d, crc) == G.Found([G.EspPart(l), G.RootPart(l)], l.diskGuid)
  {
    G.PrimaryParses(d, l, crc);
  }

  /** It still does after the primary header has been replaced by anything it rejects. */
  lemma BackupReadable(d: Disk, l: G.Layout, crc: seq<byte> -> u32, other: Sector)
    requires TableOn(d, l, crc) && |other| == SECTOR && DecodeHeader(other[..HEADER_SIZE], crc).Rejected?
    ensures G.Parse(d[1 := other], crc) == G.Found([G.EspPart(l), G.RootPart(l)], l.diskGuid)
  {
    var d' := d[1 := other];
    BackupKept(d, d', l, crc);
    G.BackupParses(d', l, crc);
  }

  /** The second copy does not depend on the primary header. */
  lemma BackupKept(d: Disk, d': Disk, l: G.Layout, crc: seq<byte> -> u32)
    requires TableOn(d, l, crc) && |d'| == |d| && Whole(d') && forall k :: 0 <= k < |d| && k != 1 ==> d'[k] == d[k]
    ensures d'[0][TYPE_AT] == PROTECTIVE
    ensures G.HasHeader(d', l.sectors - 1, G.Backup(l, crc), crc) && G.HasEntries(d', l.sectors - 33, l)
  {
    HeaderKept(d, d', l.sectors - 1, G.Backup(l, crc), crc);
    EntriesKept(d, d', l.sectors - 33, l);
  }

  lemma HeaderKept(d: Disk, d': Disk, lba: nat, h: Header, crc: seq<byte> -> u32)
    requires Whole(d) && Whole(d') && |d'| == |d| && lba < |d| && d'[lba] == d[lba] && G.HasHeader(d, lba, h, crc)
    ensures G.HasHeader(d', lba, h, crc)
  {
  }

  lemma EntriesKept(d: Disk, d': Disk, lba: nat, l: G.Layout)
    requires Whole(d) && Whole(d') && |d'| == |d| && G.Sensible(l) && G.HasEntries(d, lba, l)
    requires forall k :: lba <= k < lba + ENTRY_SECTORS && k < |d| ==> d'[k] == d[k]
    ensures G.HasEntries(d', lba, l)
  {
    JoinSame(d, d', lba, ENTRY_SECTORS);
  }

  // ---- A reader that knows nothing but the disk --------------------------------------------------------------------

  /** The first system partition of a list. */
  function FirstEsp(parts: seq<Part>): Option<Part> {
    if parts == [] then None else if parts[0].kind == ESP_GUID then Some(parts[0]) else FirstEsp(parts[1..])
  }

  /** What a boot loader reads at a path: partition table, system partition, boot sector, directories, chain. */
  ghost function BootRead(d: Disk, crc: seq<byte> -> u32, names: seq<D.Name11>): Option<seq<byte>>
    requires Whole(d) && names != []
  {
    var table := G.Parse(d, crc);
    if !table.Found? then None else
    match FirstEsp(table.parts)
    case None => None
    case Some(p) =>
      if p.first >= |d| then None else
      match Y.GeoAt(d[p.first], p.first)
      case None => None
      case Some(g) => if DataLba(g) > |d| then None else D.ReadPath(g, d, Fat1(g), E.ROOT_C, names)
  }

  lemma BootReadIs(d: Disk, l: G.Layout, crc: seq<byte> -> u32, g: Geo, names: seq<D.Name11>)
    requires Whole(d) && G.Sensible(l) && |d| == l.sectors && names != [] && DataLba(g) <= |d|
    requires G.Parse(d, crc) == G.Found([G.EspPart(l), G.RootPart(l)], l.diskGuid)
    requires Y.GeoAt(d[G.ESP_START], G.ESP_START) == Some(g)
    ensures BootRead(d, crc, names) == D.ReadPath(g, d, Fat1(g), E.ROOT_C, names)
  {
    assert FirstEsp([G.EspPart(l), G.RootPart(l)]) == Some(G.EspPart(l));
  }

  /** From the disk alone, every installed file is read by its path if every cluster used has an entry in the table;
      otherwise the kernel is not. */
  ghost predicate Boots(d: Disk, crc: seq<byte> -> u32, fs: E.Files)
    requires Whole(d)
  {
    && BootRead(d, crc, [D.LIMINE]) == Some(fs.conf)
    && (fs.efi != [] ==> BootRead(d, crc, [D.EFI, D.BOOT, D.BOOTX64]) == Some(fs.efi))
    && (fs.kernel != [] ==> BootRead(d, crc, [D.BOOT, D.KERNEL]) == Some(fs.kernel))
  }

  lemma InstalledBoots(d: Disk, l: G.Layout, crc: seq<byte> -> u32, g: Geo, fs: E.Files)
    requires AllOn(d, l, crc, g, fs)
    ensures E.InTable(g, fs) ==> Boots(d, crc, fs)
    ensures fs.kernel != [] ==> (Boots(d, crc, fs) <==> E.InTable(g, fs))
  {
    TableReadable(d, l, crc);
    FilesBoot(d, l, crc, g, fs);
  }

  lemma FilesBoot(d: Disk, l: G.Layout, crc: seq<byte> -> u32, g: Geo, fs: E.Files)
    requires Whole(d) && G.Sensible(l) && |d| == l.sectors && g.start == G.ESP_START
    requires G.Parse(d, crc) == G.Found([G.EspPart(l), G.RootPart(l)], l.diskGuid)
    requires Y.GeoAt(d[G.ESP_START], G.ESP_START) == Some(g)
    requires E.InTable(g, fs) ==> E.Done(g, d, fs)
    requires !E.InTable(g, fs) && fs.kernel != [] ==> E.Overrun(g, d, fs)
    ensures E.InTable(g, fs) ==> Boots(d, crc, fs)
    ensures fs.kernel != [] ==> (Boots(d, crc, fs) <==> E.InTable(g, fs))
  {
    if E.InTable(g, fs) {
      E.DoneInstalled(g, d, fs);
      BootReadIs(d, l, crc, g, [D.LIMINE]);
      BootReadIs(d, l, crc, g, [D.EFI, D.BOOT, D.BOOTX64]);
      BootReadIs(d, l, crc, g, [D.BOOT, D.KERNEL]);
    } else if fs.kernel != [] {
      E.KernelLost(g, d, fs);
      BootReadIs(d, l, crc, g, [D.BOOT, D.KERNEL]);
    }
  }

  /** The same after the primary header has been replaced by anything the parser rejects. */
  lemma BackupBoots(d: Disk, l: G.Layout, crc: seq<byte> -> u32, g: Geo, fs: E.Files, other: Sector)
    requires AllOn(d, l, crc, g, fs) && |other| == SECTOR && DecodeHeader(other[..HEADER_SIZE], crc).Rejected?
    ensures var d' := d[1 := other];
            (E.InTable(g, fs) ==> Boots(d', crc, fs)) && (fs.kernel != [] ==> (Boots(d', crc, fs) <==> E.InTable(g, fs)))
  {
    BackupReadable(d, l, crc, other);
    EspKept(d, d[1 := other], g, fs);
    FilesBoot(d[1 := other], l, crc, g, fs);
  }

  /** The system partition does not depend on sectors before it. */
  lemma EspKept(d: Disk, d': Disk, g: Geo, fs: E.Files)
    requires Whole(d') && |d'| == |d| && forall k :: g.start <= k < |d| ==> d'[k] == d[k]
    ensures E.Done(g, d, fs) ==> E.Done(g, d', fs)
    ensures E.Overrun(g, d, fs) ==> E.Overrun(g, d', fs)
  {
    if E.Done(g, d, fs) { E.DoneKept(g, d, d', fs); }
    if E.Overrun(g, d, fs) { E.OverrunKept(g, d, d', fs); }
  }
}
