/** The on-disk layout of AeternaFS: how the sectors of a partition encode the
    bitmaps, the inode table and the data blocks of the model, and that each
    sector write of the filesystem is one table update of the model. */
module AeternaLayout {
  import opened Bytes
  import opened Sectors
  import opened AeternaModel

  const INODE_BMAP_LBA: nat := 1
  const BLOCK_BMAP_LBA: nat := 2
  const BLOCK_BMAP_SECTORS: nat := 8
  const INODE_TBL_LBA: nat := 10
  const INODE_TBL_SECTORS: nat := 64
  const DATA_START_LBA: nat := 74

  /** A partition of whole sectors with room for the tables and `total` data blocks. */
  ghost predicate DiskShape(disk: Disk, ss: nat, total: nat) {
    && 512 <= ss < 0x1_0000_0000 && ss % 64 == 0
    && total <= MAX_BLOCKS
    && DATA_START_LBA + total <= |disk|
    && forall i :: 0 <= i < |disk| ==> |disk[i]| == ss
  }

  // ---- Bits ------------------------------------------------------------------------

  /** Bit `k` of a binary numeral. */
  predicate Bit(b: nat, k: nat) {
    if k == 0 then b % 2 == 1 else Bit(b / 2, k - 1)
  }

  function Pow2(w: nat): (r: nat)
    ensures r > 0
  {
    if w == 0 then 1 else 2 * Pow2(w - 1)
  }

  /** `b |= 1 << k` or `b &= !(1 << k)` on a numeral of `w` bits. */
  function SetBit(b: nat, w: nat, k: nat, val: bool): (r: nat)
    requires k < w && b < Pow2(w)
    ensures r < Pow2(w)
  {
    if k == 0 then b / 2 * 2 + (if val then 1 else 0)
    else b % 2 + 2 * SetBit(b / 2, w - 1, k - 1, val)
  }

  lemma {:induction false} SetBitSets(b: nat, w: nat, k: nat, val: bool, j: nat)
    requires k < w && b < Pow2(w)
    ensures Bit(SetBit(b, w, k, val), j) == if j == k then val else Bit(b, j)
    decreases k
  {
    if k > 0 && j > 0 { SetBitSets(b / 2, w - 1, k - 1, val, j - 1); }
  }

  lemma ByteBits()
    ensures Pow2(8) == 256
  {
    assert Pow2(1) == 2 && Pow2(2) == 2 * Pow2(1) && Pow2(3) == 2 * Pow2(2) && Pow2(4) == 2 * Pow2(3);
    assert Pow2(5) == 2 * Pow2(4) && Pow2(6) == 2 * Pow2(5) && Pow2(7) == 2 * Pow2(6) && Pow2(8) == 2 * Pow2(7);
  }

  predicate BitmapGet(bmap: seq<byte>, bit: nat) {
    bit / 8 < |bmap| && Bit(bmap[bit / 8], bit % 8)
  }

  function BitmapSet(bmap: seq<byte>, bit: nat, val: bool): (r: seq<byte>)
    ensures |r| == |bmap|
  {
    ByteBits();
    if bit / 8 < |bmap| then bmap[bit / 8 := SetBit(bmap[bit / 8], 8, bit % 8, val)] else bmap
  }

  /** Setting a bit of the map changes that bit and no other. */
  lemma BitmapSetSets(bmap: seq<byte>, bit: nat, val: bool, j: nat)
    ensures BitmapGet(BitmapSet(bmap, bit, val), j) ==
            if j == bit && bit / 8 < |bmap| then val else BitmapGet(bmap, j)
  {
    ByteBits();
    if bit / 8 < |bmap| && j / 8 == bit / 8 {
      SetBitSets(bmap[bit / 8], 8, bit % 8, val, j % 8);
      assert j == 8 * (j / 8) + j % 8 && bit == 8 * (bit / 8) + bit % 8;
    }
  }

  // ---- Block bitmap sectors ------------------------------------------------------------

  function BlockBmap(disk: Disk): seq<byte>
    requires BLOCK_BMAP_LBA + BLOCK_BMAP_SECTORS <= |disk|
  {
    Join(disk, BLOCK_BMAP_LBA, BLOCK_BMAP_SECTORS)
  }

  // ---- Inodes ----------------------------------------------------------------------------

  function EncodePtrs(ds: seq<u32>): (r: seq<byte>)
    ensures |r| == 4 * |ds|
  {
    if ds == [] then [] else ToLe(4, ds[0]) + EncodePtrs(ds[1..])
  }

  lemma {:induction false} EncodePtrsAt(ds: seq<u32>, k: nat)
    requires k < |ds|
    ensures EncodePtrs(ds)[4 * k..4 * k + 4] == ToLe(4, ds[k])
  {
    var e := EncodePtrs(ds);
    if k > 0 {
      EncodePtrsAt(ds[1..], k - 1);
      assert e[4 * k..4 * k + 4] == e[4..][4 * (k - 1)..4 * (k - 1) + 4];
    }
  }

  /** The 56 bytes `write_inode_raw` stores; the 8 padding bytes behind them keep their value. */
  function EncodeInode(inode: Inode): (r: seq<byte>)
    requires |inode.direct| == 8
    ensures |r| == 56
  {
    ToLe(2, inode.mode) + ToLe(2, inode.nlinks) + ToLe(8, inode.size) + ToLe(8, inode.mtime)
    + EncodePtrs(inode.direct) + ToLe(4, inode.crc)
  }

  /** `read_inode_raw` on the 64 bytes of a slot. */
  function DecodeInode(raw: seq<byte>): (r: Inode)
    requires |raw| == 64
    ensures |r.direct| == 8
  {
    Inode(FromLe16(raw[0..2]), FromLe16(raw[2..4]), FromLe64(raw[4..12]), FromLe64(raw[12..20]),
          seq(8, k requires 0 <= k < 8 => FromLe32(raw[20 + 4 * k..24 + 4 * k])), FromLe32(raw[52..56]))
  }

  lemma InodeRoundTrip(inode: Inode, raw: seq<byte>)
    requires |inode.direct| == 8 && |raw| == 64 && raw[..56] == EncodeInode(inode)
    ensures DecodeInode(raw) == inode
  {
    var e := EncodeInode(inode);
    assert raw[0..2] == e[0..2] == ToLe(2, inode.mode);
    assert raw[2..4] == e[2..4] == ToLe(2, inode.nlinks);
    assert raw[4..12] == e[4..12] == ToLe(8, inode.size);
    assert raw[12..20] == e[12..20] == ToLe(8, inode.mtime);
    assert e[20..52] == EncodePtrs(inode.direct);
    assert raw[52..56] == e[52..56] == ToLe(4, inode.crc);
    LeRoundTrip16(inode.mode);
    LeRoundTrip16(inode.nlinks);
    LeRoundTrip64(inode.size);
    LeRoundTrip64(inode.mtime);
    LeRoundTrip32(inode.crc);
    forall k | 0 <= k < 8 ensures DecodeInode(raw).direct[k] == inode.direct[k] {
      EncodePtrsAt(inode.direct, k);
      assert raw[20 + 4 * k..24 + 4 * k] == e[20..52][4 * k..4 * k + 4];
      LeRoundTrip32(inode.direct[k]);
    }
  }

  function InodeLba(ss: nat, ino: nat): nat
    requires ss >= 64
  {
    INODE_TBL_LBA + ino / (ss / 64)
  }

  function InodeOff(ss: nat, ino: nat): nat
    requires ss >= 64
  {
    ino % (ss / 64) * 64
  }

  /** The slots of the inode table lie in its sectors and do not overlap. */
  lemma InodeSlots(ss: nat, ino: nat)
    requires 512 <= ss && ss % 64 == 0 && ino < MAX_INODES
    ensures INODE_TBL_LBA <= InodeLba(ss, ino) < DATA_START_LBA && InodeOff(ss, ino) + 64 <= ss
  {
    var n := ss / 64;
    assert n >= 8 && ss == 64 * n;
    assert ino == n * (ino / n) + ino % n;
    assert ino / n < 64;
    assert ino % n <= n - 1;
  }

  lemma InodeSlotsApart(ss: nat, i: nat, j: nat)
    requires 512 <= ss && ss % 64 == 0 && i < MAX_INODES && j < MAX_INODES && i != j
    requires InodeLba(ss, i) == InodeLba(ss, j)
    ensures InodeOff(ss, i) + 64 <= InodeOff(ss, j) || InodeOff(ss, j) + 64 <= InodeOff(ss, i)
  {
    var n := ss / 64;
    assert i == n * (i / n) + i % n && j == n * (j / n) + j % n;
  }

  function InodeAt(disk: Disk, ss: nat, ino: nat): Inode
    requires DiskShape(disk, ss, 0) && ino < MAX_INODES
  {
    InodeSlots(ss, ino);
    DecodeInode(disk[InodeLba(ss, ino)][InodeOff(ss, ino)..InodeOff(ss, ino) + 64])
  }

  // ---- The filesystem on the disk --------------------------------------------------------

  ghost function View(disk: Disk, ss: nat, total: nat): (fs: Fs)
    requires DiskShape(disk, ss, total)
    ensures Shape(fs) && fs.ss == ss && |fs.blocks| == total
  {
    Fs(ss,
       seq(MAX_INODES, i requires 0 <= i < MAX_INODES => BitmapGet(disk[INODE_BMAP_LBA], i)),
       seq(total, b requires 0 <= b < total => BitmapGet(BlockBmap(disk), b)),
       seq(MAX_INODES, i requires 0 <= i < MAX_INODES => InodeAt(disk, ss, i)),
       seq(total, b requires 0 <= b < total => disk[DATA_START_LBA + b]))
  }

  /** Tables that none of the changed sectors holds are read as before. */
  lemma ViewFrame(disk: Disk, disk1: Disk, ss: nat, total: nat)
    requires DiskShape(disk, ss, total) && DiskShape(disk1, ss, total) && |disk1| == |disk|
    ensures disk1[INODE_BMAP_LBA] == disk[INODE_BMAP_LBA]
            ==> View(disk1, ss, total).iused == View(disk, ss, total).iused
    ensures (forall i :: BLOCK_BMAP_LBA <= i < INODE_TBL_LBA ==> disk1[i] == disk[i])
            ==> View(disk1, ss, total).bused == View(disk, ss, total).bused
    ensures (forall i :: INODE_TBL_LBA <= i < DATA_START_LBA ==> disk1[i] == disk[i])
            ==> View(disk1, ss, total).inodes == View(disk, ss, total).inodes
    ensures (forall i :: DATA_START_LBA <= i < |disk| ==> disk1[i] == disk[i])
            ==> View(disk1, ss, total).blocks == View(disk, ss, total).blocks
  {
    if forall i :: BLOCK_BMAP_LBA <= i < INODE_TBL_LBA ==> disk1[i] == disk[i] {
      JoinSame(disk, disk1, BLOCK_BMAP_LBA, BLOCK_BMAP_SECTORS);
    }
    if forall i :: INODE_TBL_LBA <= i < DATA_START_LBA ==> disk1[i] == disk[i] {
      forall i | 0 <= i < MAX_INODES ensures InodeAt(disk1, ss, i) == InodeAt(disk, ss, i) { InodeSlots(ss, i); }
    }
  }

  /** Writing the inode bitmap sector with one bit changed. */
  lemma WriteInodeBit(disk: Disk, ss: nat, total: nat, ino: nat, val: bool)
    requires DiskShape(disk, ss, total) && ino < MAX_INODES
    ensures var disk1 := disk[INODE_BMAP_LBA := BitmapSet(disk[INODE_BMAP_LBA], ino, val)];
            var fs := View(disk, ss, total);
            DiskShape(disk1, ss, total) && View(disk1, ss, total) == fs.(iused := fs.iused[ino := val])
  {
    var bmap := disk[INODE_BMAP_LBA];
    var disk1 := disk[INODE_BMAP_LBA := BitmapSet(bmap, ino, val)];
    var fs := View(disk, ss, total);
    ViewFrame(disk, disk1, ss, total);
    forall i | 0 <= i < MAX_INODES ensures View(disk1, ss, total).iused[i] == fs.iused[ino := val][i] {
      BitmapSetSets(bmap, ino, val, i);
    }
  }

  /** Writing back the block bitmap with one bit changed. */
  lemma WriteBlockBit(disk: Disk, disk1: Disk, ss: nat, total: nat, blk: nat, val: bool)
    requires DiskShape(disk, ss, total) && DiskShape(disk1, ss, total) && |disk1| == |disk|
    requires forall i :: 0 <= i < |disk| && !(BLOCK_BMAP_LBA <= i < INODE_TBL_LBA) ==> disk1[i] == disk[i]
    requires BlockBmap(disk1) == BitmapSet(BlockBmap(disk), blk, val)
    ensures var fs := View(disk, ss, total);
            View(disk1, ss, total) == if blk < total then fs.(bused := fs.bused[blk := val]) else fs
  {
    var fs := View(disk, ss, total);
    ViewFrame(disk, disk1, ss, total);
    JoinLength(disk, BLOCK_BMAP_LBA, BLOCK_BMAP_SECTORS, ss);
    var want := if blk < total then fs.bused[blk := val] else fs.bused;
    forall b | 0 <= b < total ensures View(disk1, ss, total).bused[b] == want[b] {
      BitmapSetSets(BlockBmap(disk), blk, val, b);
    }
    assert View(disk1, ss, total).bused == want;
  }

  /** The disk after `write_inode_raw`. */
  ghost function WithInode(disk: Disk, ss: nat, ino: nat, inode: Inode): (r: Disk)
    requires DiskShape(disk, ss, 0) && ino < MAX_INODES && |inode.direct| == 8
    ensures DiskShape(r, ss, 0) && |r| == |disk|
    ensures forall i :: 0 <= i < |disk| && i != InodeLba(ss, ino) ==> r[i] == disk[i]
  {
    InodeSlots(ss, ino);
    var lba := InodeLba(ss, ino);
    disk[lba := Patch(disk[lba], InodeOff(ss, ino), EncodeInode(inode))]
  }

  lemma SlotWritten(disk: Disk, ss: nat, ino: nat, inode: Inode)
    requires DiskShape(disk, ss, 0) && ino < MAX_INODES && |inode.direct| == 8
    ensures InodeAt(WithInode(disk, ss, ino, inode), ss, ino) == inode
  {
    InodeSlots(ss, ino);
    var lba, off := InodeLba(ss, ino), InodeOff(ss, ino);
    var sec := Patch(disk[lba], off, EncodeInode(inode));
    SliceOfSlice(sec, off, off + 64, 0, 56);
    InodeRoundTrip(inode, sec[off..off + 64]);
  }

  lemma SlotKept(disk: Disk, ss: nat, ino: nat, inode: Inode, i: nat)
    requires DiskShape(disk, ss, 0) && ino < MAX_INODES && |inode.direct| == 8 && i < MAX_INODES && i != ino
    ensures InodeAt(WithInode(disk, ss, ino, inode), ss, i) == InodeAt(disk, ss, i)
  {
    InodeSlots(ss, ino);
    InodeSlots(ss, i);
    if InodeLba(ss, i) == InodeLba(ss, ino) {
      InodeSlotsApart(ss, i, ino);
      PatchFrame(disk[InodeLba(ss, ino)], InodeOff(ss, ino), EncodeInode(inode), InodeOff(ss, i), InodeOff(ss, i) + 64);
    }
  }

  /** Writing an inode into its slot. */
  lemma WriteInodeSlot(disk: Disk, ss: nat, total: nat, ino: nat, inode: Inode)
    requires DiskShape(disk, ss, total) && InTable(ino) && |inode.direct| == 8
    ensures var disk1 := WithInode(disk, ss, ino, inode);
            DiskShape(disk1, ss, total) && View(disk1, ss, total) == PutInode(View(disk, ss, total), ino, inode)
  {
    InodeSlots(ss, ino);
    var disk1 := WithInode(disk, ss, ino, inode);
    ViewFrame(disk, disk1, ss, total);
    SlotWritten(disk, ss, ino, inode);
    forall i: nat | i < MAX_INODES && i != ino ensures InodeAt(disk1, ss, i) == InodeAt(disk, ss, i) {
      SlotKept(disk, ss, ino, inode, i);
    }
    assert View(disk1, ss, total).inodes == View(disk, ss, total).inodes[ino := inode];
  }

  /** Writing a data sector. */
  lemma WriteDataSector(disk: Disk, ss: nat, total: nat, blk: nat, sec: Sector)
    requires DiskShape(disk, ss, total) && blk < total && |sec| == ss
    ensures var disk1 := disk[DATA_START_LBA + blk := sec]; var fs := View(disk, ss, total);
            DiskShape(disk1, ss, total) && View(disk1, ss, total) == fs.(blocks := fs.blocks[blk := sec])
  {
    var disk1 := disk[DATA_START_LBA + blk := sec];
    ViewFrame(disk, disk1, ss, total);
    assert View(disk1, ss, total).blocks == View(disk, ss, total).blocks[blk := sec];
  }

  /** The superblock is not part of the tables. */
  lemma WriteSuperblock(disk: Disk, ss: nat, total: nat, sec: Sector)
    requires DiskShape(disk, ss, total) && |sec| == ss
    ensures var disk1 := disk[0 := sec];
            DiskShape(disk1, ss, total) && View(disk1, ss, total) == View(disk, ss, total)
  {
    ViewFrame(disk, disk[0 := sec], ss, total);
  }
}
