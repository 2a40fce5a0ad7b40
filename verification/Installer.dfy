/** The installer's disk, and the FAT32 helpers in their own form. */
module Installer {
  import opened Bytes
  import opened Sectors
  import opened Drives
  import opened Fat32

  class Target {
    const drive: Drive

    constructor (drive: Drive)
      ensures this.drive == drive
    {
      this.drive := drive;
    }

    /** A disk of 64-bit size; an ATA drive counts its sectors in 32 bits. */
    ghost predicate Valid()
      reads this, drive
    {
      drive.Valid() && |drive.sectors| <= if drive.kind.Ata? then LBA32 else LBA64
    }

    ghost function Disk(): Disk
      reads this, drive
    {
      drive.sectors
    }

    method PutSector(lba: nat, data: seq<byte>)
      requires Valid() && lba < |Disk()| && |data| == SECTOR
      modifies drive`sectors
      ensures Valid() && Disk() == old(Disk())[lba := data]
    {
      ghost var d := drive.sectors;
      var _ := drive.Write(lba, 1, data);
      assert Store(d, lba, 0, SECTOR, data) == d;
      assert Store(d, lba, 1, SECTOR, data) == d[lba := data[0..SECTOR]];
      assert data[0..SECTOR] == data;
    }

    method GetSector(lba: nat) returns (s: seq<byte>)
      requires Valid() && lba < |Disk()|
      ensures s == Disk()[lba]
    {
      var buf := new byte[SECTOR](_ => 0);
      var _ := drive.Read(lba, 1, buf, 0, SECTOR);
      assert Join(drive.sectors, lba, 0) == [];
      assert Join(drive.sectors, lba, 1) == drive.sectors[lba];
      assert buf[..] == buf[0..SECTOR];
      s := buf[..];
    }

    /** One copy of one entry: read the sector, patch it, write it back. */
    method PatchEntry(f: nat, c: nat, val: u32)
      requires Valid() && f + c / PER_SECTOR < |Disk()|
      modifies drive`sectors
      ensures Valid() && Disk() == PutEntry(old(Disk()), f, c, val)
    {
      var fao := c * 4;
      var fs, bo := fao / 512, fao % 512;
      assert fs == c / PER_SECTOR && bo == 4 * (c % PER_SECTOR);
      var sec := GetSector(f + fs);
      PutSector(f + fs, Patch(sec, bo, ToLe(4, val)));
    }

    /** `write_chain`: every link goes to both copies, wherever they end. */
    method WriteChain(g: Geo, start: nat, nc: nat)
      requires Valid() && Reach(g, |Disk()|, start + nc) && start + nc <= EOC_MIN
      modifies drive`sectors
      ensures Valid() && |Disk()| == |old(Disk())| && Disk() == PutLinks(g, old(Disk()), start, nc, nc)
    {
      for i := 0 to nc
        invariant Valid() && |Disk()| == |old(Disk())| && Disk() == PutLinks(g, old(Disk()), start, nc, i)
      {
        LinkBoth(g, start, nc, i);
      }
    }

    method LinkBoth(g: Geo, start: nat, nc: nat, i: nat)
      requires Valid() && Reach(g, |Disk()|, start + nc) && start + nc <= EOC_MIN && i < nc
      modifies drive`sectors
      ensures Valid() && Disk() == PutLink(g, old(Disk()), start, nc, i)
    {
      var c := start + i;
      var val := if i == nc - 1 then EOC else c + 1;
      PatchEntry(Fat1(g), c, val);
      PatchEntry(Fat2(g), c, val);
    }

    /** One sector of a file, in place. */
    method PutFileSector(lba: nat, data: seq<byte>, j: nat, ghost d0: Disk, sector: seq<byte>)
      requires Valid() && lba + j < |d0| && j < SectorsOf(|data|) && Copied(d0, Disk(), lba, data, j)
      requires j * SECTOR < |data| && sector == FileSector(data, j)
      modifies drive`sectors
      ensures Valid() && Copied(d0, Disk(), lba, data, j + 1)
    {
      CopyStep(d0, Disk(), lba, data, j);
      PutSector(lba + j, sector);
    }

    /** The whole sectors of a file from `base` up to `end`. */
    method WriteFull(lba: nat, data: seq<byte>, base: nat, end: nat, ghost d0: Disk)
      requires Valid() && base <= end && end * SECTOR <= |data| && lba + SectorsOf(|data|) <= |d0|
      requires base <= SectorsOf(|data|) && Copied(d0, Disk(), lba, data, base)
      modifies drive`sectors
      ensures Valid() && end <= SectorsOf(|data|) && Copied(d0, Disk(), lba, data, end)
    {
      var j := base;
      while j < end
        invariant base <= j <= end && j <= SectorsOf(|data|) && Valid() && Copied(d0, Disk(), lba, data, j)
      {
        FullSector(data, j);
        PutFileSector(lba, data, j, d0, data[j * SECTOR..j * SECTOR + SECTOR]);
        j := j + 1;
      }
    }

    /** The part of a file that goes into the cluster at sector `base` of the file. */
    method WriteCluster(lba: nat, data: seq<byte>, base: nat, spc: nat, ghost d0: Disk)
      requires Valid() && spc >= 1 && base * SECTOR < |data| && lba + SectorsOf(|data|) <= |d0|
      requires Copied(d0, Disk(), lba, data, base)
      modifies drive`sectors
      ensures Valid() && Copied(d0, Disk(), lba, data, Upto(base + spc, data))
    {
      var off := base * SECTOR;
      var rem := if |data| - off < spc * SECTOR then |data| - off else spc * SECTOR;
      var full, part := rem / SECTOR, rem % SECTOR;
      ClusterPart(data, base, spc);
      WriteFull(lba, data, base, base + full, d0);
      if part > 0 { WriteTail(lba, data, base + full, d0); }
    }

    /** The last sector, padded with zeros. */
    method WriteTail(lba: nat, data: seq<byte>, j: nat, ghost d0: Disk)
      requires Valid() && j * SECTOR < |data| < (j + 1) * SECTOR && lba + j < |d0|
      requires j < SectorsOf(|data|) && Copied(d0, Disk(), lba, data, j)
      modifies drive`sectors
      ensures Valid() && Copied(d0, Disk(), lba, data, j + 1)
    {
      LastSector(data, j);
      PutFileSector(lba, data, j, d0, Patch(Zeros(SECTOR), 0, data[j * SECTOR..]));
    }

    /** `write_clusters`: afterwards the clusters hold the file, and nothing else has changed. */
    method WriteClusters(g: Geo, data: seq<byte>, start: nat, nc: nat)
      requires Valid() && g.spc >= 1 && start >= 2 && Clba(g, start + nc) <= |Disk()|
      requires SectorsOf(|data|) <= nc * g.spc
      modifies drive`sectors
      ensures Valid() && Clba(g, start) + SectorsOf(|data|) <= |Disk()|
      ensures Copied(old(Disk()), Disk(), Clba(g, start), data, SectorsOf(|data|))
    {
      ClusterLba(g, start, nc);
      ghost var d0 := Disk();
      var ci, base := 0, 0;
      while ci < nc
        invariant ci <= nc && base == ci * g.spc && Valid()
        invariant Copied(d0, Disk(), Clba(g, start), data, Upto(base, data))
      {
        if base * SECTOR >= |data| { break; }
        NextCluster(g.spc, ci);
        WriteCluster(Clba(g, start), data, base, g.spc, d0);
        base := base + g.spc;
        ci := ci + 1;
      }
    }
  }

  /** Sectors of a file among its first `n`. */
  function Upto(n: nat, data: seq<byte>): (r: nat)
    ensures r <= SectorsOf(|data|)
  {
    Min(n, SectorsOf(|data|))
  }

  lemma NextCluster(spc: nat, ci: nat)
    ensures (ci + 1) * spc == ci * spc + spc
  {
  }

  lemma ClusterPart(data: seq<byte>, base: nat, spc: nat)
    requires spc >= 1 && base * SECTOR < |data|
    ensures var left := |data| - base * SECTOR; var rem := if left < spc * SECTOR then left else spc * SECTOR;
            var full, part := rem / SECTOR, rem % SECTOR;
            && base < SectorsOf(|data|) && (base + full) * SECTOR <= |data|
            && (part == 0 ==> Upto(base + spc, data) == base + full)
            && (part > 0 ==> Upto(base + spc, data) == base + full + 1
                             && (base + full) * SECTOR + part == |data| < (base + full + 1) * SECTOR)
  {
  }

  lemma FullSector(data: seq<byte>, j: nat)
    requires (j + 1) * SECTOR <= |data|
    ensures j < SectorsOf(|data|) && FileSector(data, j) == data[j * SECTOR..j * SECTOR + SECTOR]
  {
  }

  lemma LastSector(data: seq<byte>, j: nat)
    requires j * SECTOR < |data| < (j + 1) * SECTOR
    ensures j < SectorsOf(|data|) && FileSector(data, j) == Patch(Zeros(SECTOR), 0, data[j * SECTOR..])
  {
  }
}
