/** The geometry the installer computes for the system partition, and the boot sector that tells it to a reader. */
module EspGeometry {
  import opened Bytes
  import opened Sectors
  import opened Drives
  import opened Fat32
  import opened EspOverrun

  /** Sectors of one table copy for `s` sectors per cluster. */
  function FatSectors(total: nat, s: nat): (r: nat)
    requires total >= RSVD
  {
    var tmp2 := 256 * s + NFAT;
    (total - RSVD + tmp2 - 1) / tmp2
  }

  /** Data clusters for `s` sectors per cluster. */
  function DataClusters(total: nat, s: nat): (r: nat)
    requires total >= RSVD && s >= 1
  {
    var rel := RSVD + FatSectors(total, s) * NFAT;
    if total >= rel then (total - rel) / s else 0
  }

  /** The choice of cluster size: the largest of 8, 4, 2 and 1 sectors with at least 65600 data clusters, else 1. */
  ghost predicate IsSpc(total: nat, s: nat)
    requires total >= RSVD
  {
    && s in {1, 2, 4, 8} && (s == 1 || DataClusters(total, s) >= 65600)
    && forall bigger :: bigger in {2, 4, 8} && bigger > s ==> DataClusters(total, bigger) < 65600
  }

  method PickSpc(total: nat) returns (s: nat)
    requires total >= RSVD
    ensures IsSpc(total, s)
  {
    s := 8;
    while true
      invariant s in {1, 2, 4, 8}
      invariant forall bigger :: bigger in {2, 4, 8} && bigger > s ==> DataClusters(total, bigger) < 65600
      decreases s
    {
      if DataClusters(total, s) >= 65600 || s == 1 { break; }
      s := s / 2;
    }
  }

  /** There is exactly one choice. */
  function Spc(total: nat): (s: nat)
    requires total >= RSVD
    ensures IsSpc(total, s)
  {
    if DataClusters(total, 8) >= 65600 then 8
    else if DataClusters(total, 4) >= 65600 then 4
    else if DataClusters(total, 2) >= 65600 then 2 else 1
  }

  lemma SpcUnique(total: nat, s: nat, s': nat)
    requires total >= RSVD && IsSpc(total, s) && IsSpc(total, s')
    ensures s == s'
  {
  }

  function GeoOf(start: nat, total: nat, s: nat): Geo
    requires total >= RSVD
  {
    Geo(start, s, FatSectors(total, s))
  }

  /** A partition of at least 1 MiB. */
  const LEAST: nat := 2048

  /** Tables and all data clusters lie within the partition. */
  lemma ClustersInside(start: nat, total: nat, s: nat)
    requires total >= LEAST && s in {1, 2, 4, 8}
    ensures var g := GeoOf(start, total, s);
            g.fatSec >= 1 && DataLba(g) + DataClusters(total, s) * s <= start + total
  {
    var f, m := FatSectors(total, s), 256 * s + NFAT;
    assert f * m <= total - RSVD + m - 1;
    TableFits(total, s, f);
    var left := total - (RSVD + f * NFAT);
    assert left / s * s <= left;
  }

  lemma TableFits(total: nat, s: nat, f: nat)
    requires total >= LEAST && s in {1, 2, 4, 8} && f * (256 * s + NFAT) <= total - RSVD + 256 * s + NFAT - 1
    ensures RSVD + f * NFAT <= total
  {
    match s
    case 1 => assert f * 258 <= total - RSVD + 257;
    case 2 => assert f * 514 <= total - RSVD + 513;
    case 4 => assert f * 1026 <= total - RSVD + 1025;
    case 8 => assert f * 2050 <= total - RSVD + 2049;
  }

  lemma TableSmall(total: nat, s: nat)
    requires total >= LEAST && s in {1, 2, 4, 8}
    ensures FatSectors(total, s) <= total
  {
    ClustersInside(0, total, s);
  }

  /** The first sector behind the cluster before `end` lies within the partition. */
  lemma EndInside(start: nat, total: nat, s: nat, end: nat)
    requires total >= LEAST && s in {1, 2, 4, 8} && 2 <= end <= DataClusters(total, s) + 2
    ensures var g := GeoOf(start, total, s); Clba(g, end) <= start + total
  {
    ClustersInside(start, total, s);
    assert (end - 2) * s <= DataClusters(total, s) * s;
  }

  /** The computed table has entries for about half of the data clusters only: the formula counts two bytes an entry. */
  lemma TableIsShort(start: nat, total: nat, s: nat)
    requires total >= LEAST && s in {1, 2, 4, 8}
    ensures 2 * TableSize(GeoOf(start, total, s)) <= DataClusters(total, s) + 258
  {
    var f := FatSectors(total, s);
    ClustersInside(start, total, s);
    match s
    case 1 => assert f * 258 <= total - RSVD + 257;
    case 2 => assert f * 514 <= total - RSVD + 513;
    case 4 => assert f * 1026 <= total - RSVD + 1025;
    case 8 => assert f * 2050 <= total - RSVD + 2049;
  }

  // ---- The boot sector ----------------------------------------------------------------------------------------

  /** What a reader makes of the boot sector of a partition at `start`: 512-byte sectors, the reserved sectors and the
      two copies where the installer puts them, the root directory in cluster 2. */
  function GeoAt(vbr: seq<byte>, start: nat): Option<Geo>
    requires |vbr| == SECTOR
  {
    if vbr[510] == 0x55 && vbr[511] == 0xAA && FromLe16(vbr[11..13]) == SECTOR && vbr[13] >= 1
       && FromLe16(vbr[14..16]) == RSVD && vbr[16] == NFAT && FromLe32(vbr[44..48]) == 2
    then Some(Geo(start, vbr[13], FromLe32(vbr[36..40]))) else None
  }

  /** Bytes 11 to 17 and 32 to 48 of the boot sector. */
  function Sizes(spc: byte): (r: seq<byte>)
    ensures |r| == 6
  {
    ToLe(2, SECTOR) + [spc] + ToLe(2, RSVD) + [NFAT]
  }

  function Extents(total: u32, fatSec: u32): (r: seq<byte>)
    ensures |r| == 16
  {
    ToLe(4, total) + ToLe(4, fatSec) + [0, 0, 0, 0] + ToLe(4, 2)
  }

  lemma SizesDecode(r: seq<byte>, spc: byte)
    requires |r| == SECTOR && r[11..17] == Sizes(spc)
    ensures FromLe16(r[11..13]) == SECTOR && r[13] == spc && FromLe16(r[14..16]) == RSVD && r[16] == NFAT
  {
    var x := r[11..17];
    assert r[11..13] == x[..2] == ToLe(2, SECTOR) && r[14..16] == x[3..5] == ToLe(2, RSVD) && r[13] == x[2] && r[16] == x[5];
    LeRoundTrip16(SECTOR);
    LeRoundTrip16(RSVD);
  }

  lemma ExtentsDecode(r: seq<byte>, total: u32, fatSec: u32)
    requires |r| == SECTOR && r[32..48] == Extents(total, fatSec)
    ensures FromLe32(r[32..36]) == total && FromLe32(r[36..40]) == fatSec && FromLe32(r[44..48]) == 2
  {
    var x := r[32..48];
    assert r[32..36] == x[..4] == ToLe(4, total) && r[36..40] == x[4..8] == ToLe(4, fatSec) && r[44..48] == x[12..] == ToLe(4, 2);
    LeRoundTrip32(2);
    LeRoundTrip32(total);
    LeRoundTrip32(fatSec);
  }

  /** The parameter block. */
  method BuildVbr(g: Geo, total: u32) returns (r: seq<byte>)
    requires 1 <= g.spc < 256 && g.fatSec < 0x1_0000_0000
    ensures |r| == SECTOR && GeoAt(r, g.start) == Some(g) && FromLe32(r[32..36]) == total
  {
    var a := new byte[SECTOR](_ => 0);
    CopyIn(a, 0, [0xEB, 0x58, 0x90, 0x41, 0x45, 0x54, 0x45, 0x52, 0x4E, 0x41, 0x20]);
    CopyIn(a, 21, [0xF8, 0, 0] + ToLe(2, 63) + ToLe(2, 255) + ToLe(4, g.start % 0x1_0000_0000));
    CopyIn(a, 48, ToLe(2, 1) + ToLe(2, 6));
    CopyIn(a, 64, [0x80, 0, 0x29] + ToLe(4, 0xAE05_AE05));
    CopyIn(a, 71, [0x41, 0x45, 0x54, 0x45, 0x52, 0x4E, 0x41, 0x20, 0x45, 0x53, 0x50, 0x46, 0x41, 0x54, 0x33, 0x32, 0x20, 0x20, 0x20]);
    PutParameters(a, g.spc, g.fatSec, total);
    r := a[..];
    SizesDecode(r, g.spc);
    ExtentsDecode(r, total, g.fatSec);
  }

  method PutParameters(a: array<byte>, spc: byte, fatSec: u32, total: u32)
    requires a.Length == SECTOR
    modifies a
    ensures a[11..17] == Sizes(spc) && a[32..48] == Extents(total, fatSec) && a[510] == 0x55 && a[511] == 0xAA
  {
    var x, y := Sizes(spc), Extents(total, fatSec);
    CopyIn(a, 11, x);
    CopyIn(a, 32, y);
    a[510], a[511] := 0x55, 0xAA;
    assert a[..][11..17] == x && a[..][32..48] == y;
  }
}
