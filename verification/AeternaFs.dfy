/** The AeternaFS driver: reads, patches and writes sectors. Every method is proved
    to do to the decoded filesystem what the model says. */
module AeternaFs {
  import opened Bytes
  import opened Paths
  import opened Sectors
  import opened AeternaLayout
  import M = AeternaModel
  import S = AeternaSound

  const AETERNA_MAGIC: u64 := 0x5346_5445_4145_0100
  const AETERNA_VERSION: u32 := 1
  const NO_BLOCK: nat := 0xFFFF_FFFF

  /** The superblock fields that `mount` reads back. */
  ghost predicate SuperOk(sector: Sector, total: nat) {
    && |sector| >= 72 && total < 0x1_0000_0000
    && FromLe64(sector[0..8]) == AETERNA_MAGIC && FromLe32(sector[64..68]) == total
  }

  /** A zeroed block with an entry in its first slot; the terminating NUL is already there. */
  function FirstEntry(ss: nat, child: u32, name: M.Name): (r: seq<byte>)
    requires ss >= 64 && |name| <= 27
    ensures r == M.PutEntry(Zeros(ss), 0, child, name)
  {
    var block := Patch(Patch(Zeros(ss), 0, ToLe(4, child)), 4, name);
    assert block == Patch(block, 4 + |name|, [0]);
    block
  }

  lemma SliceFits(i: nat, ss: nat)
    requires i < 8
    ensures i * ss + ss <= 8 * ss
  {
    assert (i + 1) * ss <= 8 * ss;
  }

  class AeternaFs {
    var disk: Disk
    var sectorSize: nat
    var ready: bool
    var totalBlocks: nat
    var freeBlocks: u32
    var freeInodes: u32

    ghost predicate Formed()
      reads this
    {
      DiskShape(disk, sectorSize, totalBlocks)
    }

    ghost function View(): M.Fs
      reads this
      requires Formed()
    {
      AeternaLayout.View(disk, sectorSize, totalBlocks)
    }

    ghost predicate Valid()
      reads this
    {
      Formed() && S.Sound(View()) && SuperOk(disk[0], totalBlocks)
    }

    // ---- Sectors and bitmaps -----------------------------------------------------------

    method ReadLba(lba: nat) returns (buf: Sector)
      requires Formed() && lba < |disk|
      ensures buf == disk[lba]
    {
      buf := disk[lba];
    }

    method WriteLba(lba: nat, buf: Sector)
      requires Formed() && lba < |disk| && |buf| == sectorSize
      modifies this`disk
      ensures Formed() && disk == old(disk)[lba := buf]
    {
      disk := disk[lba := buf];
    }

    method AllocInode() returns (ino: nat)
      requires Formed()
      modifies this`disk
      ensures Formed() && disk[0] == old(disk[0])
      ensures M.AllocInode(old(View())) == M.InodeAlloc(View(), ino)
    {
      var bmap := ReadLba(INODE_BMAP_LBA);
      for i := 2 to M.MAX_INODES
        invariant forall j :: 2 <= j < i ==> View().iused[j]
        invariant disk == old(disk)
      {
        assert View().iused[i] == BitmapGet(bmap, i);
        if !BitmapGet(bmap, i) {
          M.FirstClearIs(View().iused, 2, i);
          WriteInodeBit(disk, sectorSize, totalBlocks, i, true);
          bmap := BitmapSet(bmap, i, true);
          WriteLba(INODE_BMAP_LBA, bmap);
          return i;
        }
      }
      M.FirstClearIs(View().iused, 2, M.MAX_INODES);
      ino := 0;
    }

    method FreeInode(ino: nat)
      requires Formed() && ino < M.MAX_INODES
      modifies this`disk
      ensures Formed() && disk[0] == old(disk[0])
      ensures View() == M.FreeInode(old(View()), ino)
    {
      var bmap := ReadLba(INODE_BMAP_LBA);
      WriteInodeBit(disk, sectorSize, totalBlocks, ino, false);
      WriteLba(INODE_BMAP_LBA, BitmapSet(bmap, ino, false));
    }

    method ReadBlockBmap() returns (buf: seq<byte>)
      requires Formed()
      ensures buf == BlockBmap(disk) && |buf| == 8 * sectorSize
    {
      buf := [];
      for i := 0 to BLOCK_BMAP_SECTORS
        invariant buf == Join(disk, BLOCK_BMAP_LBA, i)
      {
        var sec := ReadLba(BLOCK_BMAP_LBA + i);
        buf := buf + sec;
      }
      JoinLength(disk, BLOCK_BMAP_LBA, BLOCK_BMAP_SECTORS, sectorSize);
    }

    method WriteBlockBmap(bmap: seq<byte>)
      requires Formed() && |bmap| == 8 * sectorSize
      modifies this`disk
      ensures Formed() && |disk| == |old(disk)| && BlockBmap(disk) == bmap
      ensures forall i :: 0 <= i < |disk| && !(BLOCK_BMAP_LBA <= i < INODE_TBL_LBA) ==> disk[i] == old(disk)[i]
    {
      for i := 0 to BLOCK_BMAP_SECTORS
        invariant Formed() && |disk| == |old(disk)|
        invariant forall j: nat :: j < i ==> HoldsSlice(disk, BLOCK_BMAP_LBA, j, sectorSize, bmap)
        invariant forall j :: 0 <= j < |disk| && !(BLOCK_BMAP_LBA <= j < INODE_TBL_LBA) ==> disk[j] == old(disk)[j]
      {
        var off := i * sectorSize;
        SliceFits(i, sectorSize);
        ghost var before := disk;
        WriteLba(BLOCK_BMAP_LBA + i, bmap[off..off + sectorSize]);
        forall j: nat | j < i ensures HoldsSlice(disk, BLOCK_BMAP_LBA, j, sectorSize, bmap) {
          assert HoldsSlice(before, BLOCK_BMAP_LBA, j, sectorSize, bmap);
        }
      }
      JoinSlices(disk, BLOCK_BMAP_LBA, BLOCK_BMAP_SECTORS, sectorSize, bmap);
    }

    /** Write the block bitmap back with one bit changed. */
    method MarkBlock(bmap: seq<byte>, blk: nat, val: bool)
      requires Formed() && bmap == BlockBmap(disk) && |bmap| == 8 * sectorSize
      modifies this`disk
      ensures Formed() && |disk| == |old(disk)| && disk[0] == old(disk[0])
      ensures View() == if blk < totalBlocks then old(View()).(bused := old(View()).bused[blk := val]) else old(View())
    {
      ghost var disk0 := disk;
      WriteBlockBmap(BitmapSet(bmap, blk, val));
      WriteBlockBit(disk0, disk, sectorSize, totalBlocks, blk, val);
    }

    method AllocBlock() returns (blk: nat)
      requires Formed()
      modifies this`disk
      ensures Formed() && disk[0] == old(disk[0])
      ensures match M.AllocBlock(old(View()))
              case NoBlock => blk == NO_BLOCK && disk == old(disk)
              case GotBlock(fs, b) => blk == b && View() == fs
    {
      var bmap := ReadBlockBmap();
      for i := 0 to totalBlocks
        invariant forall j :: 0 <= j < i ==> View().bused[j]
        invariant disk == old(disk)
      {
        assert View().bused[i] == BitmapGet(bmap, i);
        if !BitmapGet(bmap, i) {
          M.FirstClearIs(View().bused, 0, i);
          MarkBlock(bmap, i, true);
          WriteDataSector(disk, sectorSize, totalBlocks, i, Zeros(sectorSize));
          WriteLba(DATA_START_LBA + i, Zeros(sectorSize));
          return i;
        }
      }
      M.FirstClearIs(View().bused, 0, totalBlocks);
      blk := NO_BLOCK;
    }

    method FreeBlock(blk: nat)
      requires Formed()
      modifies this`disk
      ensures Formed() && disk[0] == old(disk[0])
      ensures View() == M.FreeBlock(old(View()), blk)
    {
      var bmap := ReadBlockBmap();
      MarkBlock(bmap, blk, false);
    }

    // ---- Inodes and blocks ----------------------------------------------------------------

    method ReadInodeRaw(ino: nat) returns (r: Option<M.Inode>)
      requires Formed()
      ensures r == if M.InTable(ino) then Some(View().inodes[ino]) else None
    {
      if ino == 0 || ino >= M.MAX_INODES { return None; }
      InodeSlots(sectorSize, ino);
      var buf := ReadLba(InodeLba(sectorSize, ino));
      var base := InodeOff(sectorSize, ino);
      r := Some(DecodeInode(buf[base..base + 64]));
    }

    method WriteInodeRaw(ino: nat, inode: M.Inode) returns (ok: bool)
      requires Formed() && |inode.direct| == 8
      modifies this`disk
      ensures Formed() && disk[0] == old(disk[0])
      ensures ok == M.InTable(ino)
      ensures View() == if ok then M.PutInode(old(View()), ino, inode) else old(View())
    {
      if ino == 0 || ino >= M.MAX_INODES { return false; }
      InodeSlots(sectorSize, ino);
      WriteInodeSlot(disk, sectorSize, totalBlocks, ino, inode);
      var buf := ReadLba(InodeLba(sectorSize, ino));
      WriteLba(InodeLba(sectorSize, ino), Patch(buf, InodeOff(sectorSize, ino), EncodeInode(inode)));
      ok := true;
    }

    method ReadBlock(blk: nat) returns (buf: Sector)
      requires Formed() && blk < totalBlocks
      ensures buf == M.BlockAt(View(), blk) && |buf| == sectorSize
    {
      buf := ReadLba(DATA_START_LBA + blk);
    }

    method WriteBlock(blk: nat, data: seq<byte>)
      requires Formed() && blk < totalBlocks
      modifies this`disk
      ensures Formed() && disk[0] == old(disk[0])
      ensures View() == M.WriteBlock(old(View()), blk, data)
    {
      var buf := BlockBuffer(data);
      WriteDataSector(disk, sectorSize, totalBlocks, blk, buf);
      WriteLba(DATA_START_LBA + blk, buf);
    }

    /** A zeroed buffer with as much of the data as fits. */
    method BlockBuffer(data: seq<byte>) returns (buf: Sector)
      ensures |buf| == sectorSize && buf == M.Padded(sectorSize, data)
    {
      var len := Min(|data|, sectorSize);
      buf := Patch(Zeros(sectorSize), 0, data[..len]);
      M.PaddedIs(sectorSize, data);
    }

    method FlushSuperblock()
      requires Formed() && SuperOk(disk[0], totalBlocks)
      modifies this`disk
      ensures Formed() && SuperOk(disk[0], totalBlocks) && View() == old(View())
    {
      var sb := ReadLba(0);
      var sb1 := Patch(sb, 60, ToLe(4, freeInodes));
      var sb2 := Patch(sb1, 68, ToLe(4, freeBlocks));
      PatchFrame(sb, 60, ToLe(4, freeInodes), 0, 8);
      PatchFrame(sb1, 68, ToLe(4, freeBlocks), 0, 8);
      PatchFrame(sb, 60, ToLe(4, freeInodes), 64, 68);
      PatchFrame(sb1, 68, ToLe(4, freeBlocks), 64, 68);
      WriteSuperblock(disk, sectorSize, totalBlocks, sb2);
      WriteLba(0, sb2);
    }

    // ---- Directories -----------------------------------------------------------------------

    /** Scan the blocks of directory `dir` for `name`. */
    method FindEntry(dir: nat, direct: seq<u32>, name: M.Name) returns (p: M.Place)
      requires Valid() && M.InTable(dir) && direct == View().inodes[dir].direct
      ensures p == M.DirFind(View(), direct, 0, name)
    {
      var k := 0;
      while k < 8 && direct[k] != 0
        invariant k <= 8 && M.DirFind(View(), direct, k, name) == M.DirFind(View(), direct, 0, name)
      {
        S.Owns(View(), dir, k);
        var block := ReadBlock(direct[k]);
        var slot := 0;
        while slot < sectorSize / 32
          invariant slot <= sectorSize / 32 && M.FindSlot(block, slot, name) == M.FindSlot(block, 0, name)
        {
          if M.Names(block, slot, name) { return M.At(k, slot); }
          slot := slot + 1;
        }
        k := k + 1;
      }
      p := M.Nowhere;
    }

    /** Scan the blocks of directory `dir` for an unused slot. */
    method FindUnused(dir: nat, direct: seq<u32>) returns (p: M.Place)
      requires Valid() && M.InTable(dir) && direct == View().inodes[dir].direct
      ensures p == M.DirFindUnused(View(), direct, 0)
    {
      var k := 0;
      while k < 8 && direct[k] != 0
        invariant k <= 8 && M.DirFindUnused(View(), direct, k) == M.DirFindUnused(View(), direct, 0)
      {
        S.Owns(View(), dir, k);
        var block := ReadBlock(direct[k]);
        var slot := 0;
        while slot < sectorSize / 32
          invariant slot <= sectorSize / 32 && M.FindUnused(block, slot) == M.FindUnused(block, 0)
        {
          if M.SlotIno(block, slot) == 0 { return M.At(k, slot); }
          slot := slot + 1;
        }
        k := k + 1;
      }
      p := M.Nowhere;
    }

    method DirLookup(dir: nat, name: M.Name) returns (r: Option<nat>)
      requires Valid()
      ensures r == M.DirLookup(View(), dir, name)
    {
      var raw := ReadInodeRaw(dir);
      if raw.None? || !M.IsDir(raw.value) { return None; }
      var direct := raw.value.direct;
      var p := FindEntry(dir, direct, name);
      if p.Nowhere? { return None; }
      M.DirFindBounds(View(), direct, 0, name);
      S.Owns(View(), dir, p.k);
      var block := ReadBlock(direct[p.k]);
      r := Some(M.SlotIno(block, p.slot));
    }

    method DirAddEntry(dir: nat, name: M.Name, child: u32) returns (ok: bool)
      requires Valid()
      modifies this`disk
      ensures Valid() && M.DirAdd(old(View()), dir, name, child) == M.Outcome(View(), ok)
    {
      S.DirAddSound(View(), dir, name, child);
      var raw := ReadInodeRaw(dir);
      if raw.None? || !M.IsDir(raw.value) { return false; }
      if |name| > 27 { return false; }
      var direct := raw.value.direct;
      var p := FindUnused(dir, direct);
      if p.At? {
        M.DirFindUnusedBounds(View(), direct, 0);
        S.Owns(View(), dir, p.k);
        var block := ReadBlock(direct[p.k]);
        WriteBlock(direct[p.k], M.PutEntry(block, p.slot, child, name));
        ok := true;
      } else {
        ok := AddInNewBlock(dir, name, child, raw.value);
      }
    }

    /** The second half of `dir_add_entry`: no free slot, so the directory gets a new block. */
    method AddInNewBlock(dir: nat, name: M.Name, child: u32, inode: M.Inode) returns (ok: bool)
      requires Formed() && M.InTable(dir) && inode == View().inodes[dir] && M.IsDir(inode) && |name| <= 27
      requires M.DirFindUnused(View(), inode.direct, 0) == M.Nowhere
      modifies this`disk
      ensures Formed() && disk[0] == old(disk[0])
      ensures M.DirAdd(old(View()), dir, name, child) == M.Outcome(View(), ok)
    {
      for k := 0 to 8
        invariant M.FirstZero(inode.direct, 0) == M.FirstZero(inode.direct, k)
        invariant disk == old(disk)
      {
        if inode.direct[k] == 0 {
          M.DirAddGrown(View(), dir, name, child, k);
          ok := GrowDir(dir, name, child, inode, k);
          return;
        }
      }
      ok := false;
    }

    method GrowDir(dir: nat, name: M.Name, child: u32, inode: M.Inode, k: nat) returns (ok: bool)
      requires Formed() && M.InTable(dir) && inode == View().inodes[dir] && |name| <= 27 && k < 8
      modifies this`disk
      ensures Formed() && disk[0] == old(disk[0])
      ensures M.DirGrow(old(View()), dir, name, child, k) == M.Outcome(View(), ok)
    {
      var blk := AllocBlock();
      if blk == NO_BLOCK { return false; }
      AttachBlock(dir, name, child, inode.(direct := inode.direct[k := blk],
                                           size := (inode.size + sectorSize) % 0x1_0000_0000_0000_0000), blk);
      ok := true;
    }

    /** The inode with its new pointer, and the block with its first entry. */
    method AttachBlock(dir: nat, name: M.Name, child: u32, grown: M.Inode, blk: nat)
      requires Formed() && M.InTable(dir) && |grown.direct| == 8 && |name| <= 27 && blk < totalBlocks
      modifies this`disk
      ensures Formed() && disk[0] == old(disk[0])
      ensures View() == M.WriteBlock(M.PutInode(old(View()), dir, grown), blk, M.PutEntry(Zeros(sectorSize), 0, child, name))
    {
      var _ := WriteInodeRaw(dir, grown);
      var block := FirstEntry(sectorSize, child, name);
      WriteBlock(blk, block);
    }

    method DirRemoveEntry(dir: nat, name: M.Name) returns (ok: bool)
      requires Valid()
      modifies this`disk
      ensures Valid() && M.DirRemove(old(View()), dir, name) == M.Outcome(View(), ok)
    {
      S.DirRemoveSound(View(), dir, name);
      var raw := ReadInodeRaw(dir);
      if raw.None? || !M.IsDir(raw.value) { return false; }
      var direct := raw.value.direct;
      var p := FindEntry(dir, direct, name);
      if p.Nowhere? { return false; }
      M.DirFindBounds(View(), direct, 0, name);
      S.Owns(View(), dir, p.k);
      var block := ReadBlock(direct[p.k]);
      WriteBlock(direct[p.k], M.ClearEntry(block, p.slot));
      ok := true;
    }

    method LookupPath(path: seq<byte>) returns (r: Option<nat>)
      requires Valid()
      ensures r == M.LookupPath(View(), path)
    {
      var comps := M.Components(path);
      var cur := M.INODE_ROOT;
      var i := 0;
      while i < |comps|
        invariant i <= |comps| && M.Walk(View(), cur, comps[i..]) == M.LookupPath(View(), path)
      {
        var found := DirLookup(cur, comps[i]);
        assert comps[i..][1..] == comps[i + 1..];
        if found.None? { return None; }
        cur := found.value;
        i := i + 1;
      }
      r := Some(cur);
    }

    // ---- Files --------------------------------------------------------------------------------

    method ReadFile(path: seq<byte>) returns (r: Option<seq<byte>>)
      requires Valid()
      ensures r == if ready then M.ReadFile(View(), path) else None
    {
      if !ready { return None; }
      var found := LookupPath(path);
      if found.None? { return None; }
      var raw := ReadInodeRaw(found.value);
      if raw.None? || !M.IsReg(raw.value) { return None; }
      var direct, size := raw.value.direct, raw.value.size;
      var result := [];
      var k := 0;
      while k < 8 && direct[k] != 0
        invariant k <= 8
        invariant M.ReadBlocks(View(), direct, size, k, result) == M.ReadBlocks(View(), direct, size, 0, [])
      {
        S.Owns(View(), found.value, k);
        var block := ReadBlock(direct[k]);
        var remaining := if size <= |result| then 0 else size - |result|;
        var take := Min(remaining, sectorSize);
        result := result + block[..take];
        if |result| >= size { return Some(result); }
        k := k + 1;
      }
      r := Some(result);
    }

    /** Free the used pointers of an inode, one bitmap update at a time. */
    method FreePointers(direct: seq<u32>)
      requires Formed() && |direct| == 8
      modifies this`disk
      ensures Formed() && disk[0] == old(disk[0])
      ensures View() == M.FreeAll(old(View()), direct, 0)
    {
      for k := 0 to 8
        invariant Formed() && disk[0] == old(disk[0])
        invariant M.FreeAll(View(), direct, k) == M.FreeAll(old(View()), direct, 0)
      {
        if direct[k] != 0 { FreeBlock(direct[k]); }
      }
    }

    /** Drop the old contents of the file at `ino`. */
    method Truncate(ino: nat)
      requires Valid()
      modifies this`disk
      ensures Valid() && View() == M.Truncate(old(View()), ino)
    {
      S.TruncateSound(View(), ino);
      var raw := ReadInodeRaw(ino);
      if raw.Some? && M.IsReg(raw.value) {
        FreePointers(raw.value.direct);
        var _ := WriteInodeRaw(ino, raw.value.(direct := M.NO_BLOCKS, size := 0));
      }
    }

    /** Look the parent up and enter a new regular inode there. */
    method CreateFile(path: seq<byte>) returns (ok: bool, ino: nat)
      requires Valid()
      modifies this`disk
      ensures Valid() && var c := M.CreateFile(old(View()), path); c.fs == View() && c.ok == ok && (ok ==> c.ino == ino)
    {
      ghost var fs := View();
      S.CreateFileSound(fs, path);
      ino := 0;
      var s := M.SplitPath(path);
      var parent := LookupPath(s.parent);
      if parent.None? { return false, 0; }
      ino := AllocInode();
      if ino == 0 { return false, 0; }
      S.NewInodeSound(fs, M.MODE_REG, 1);
      var _ := WriteInodeRaw(ino, M.NewInode(M.MODE_REG, 1));
      ok := DirAddEntry(parent.value, s.name, ino);
    }

    /** Store the next chunk of `data` in a fresh block, as pointer `k`. */
    method StoreChunk(direct: seq<u32>, k: nat, data: seq<byte>, written: nat)
      returns (ok: bool, grown: seq<u32>, end: nat)
      requires Formed() && |direct| == 8 && k < 8 && written < |data|
      modifies this`disk
      ensures Formed() && disk[0] == old(disk[0]) && |grown| == 8 && end <= |data|
      ensures M.FillBlocks(old(View()), direct, k, data, written) ==
              if ok then M.FillBlocks(View(), grown, k + 1, data, end) else M.Filled(View(), grown, false)
    {
      grown, end := direct, written;
      var blk := AllocBlock();
      if blk == NO_BLOCK { return false, direct, written; }
      grown := direct[k := blk];
      end := Min(written + sectorSize, |data|);
      WriteBlock(blk, data[written..end]);
      ok := true;
    }

    /** Write `data` in block-sized chunks into fresh blocks. */
    method FillBlocks(direct0: seq<u32>, data: seq<byte>) returns (ok: bool, direct: seq<u32>)
      requires Formed() && |direct0| == 8
      modifies this`disk
      ensures Formed() && disk[0] == old(disk[0]) && |direct| == 8
      ensures M.FillBlocks(old(View()), direct0, 0, data, 0) == M.Filled(View(), direct, ok)
    {
      direct := direct0;
      var written: nat, k: nat := 0, 0;
      while k < 8 && written < |data|
        invariant k <= 8 && written <= |data| && |direct| == 8
        invariant Formed() && disk[0] == old(disk[0])
        invariant M.FillBlocks(View(), direct, k, data, written) == M.FillBlocks(old(View()), direct0, 0, data, 0)
      {
        ok, direct, written := StoreChunk(direct, k, data, written);
        if !ok { return; }
        k := k + 1;
      }
      ok := true;
    }

    /** The second half of `write_file`. */
    method Fill(ino: nat, data: seq<byte>) returns (ok: bool)
      requires Valid() && |data| < 0x1_0000_0000_0000_0000
      modifies this`disk
      ensures Valid() && M.Fill(old(View()), ino, data) == M.Outcome(View(), ok)
    {
      S.FillSound(View(), ino, data);
      var raw := ReadInodeRaw(ino);
      if raw.None? { return false; }
      M.FillBlocksKeeps(View(), raw.value.direct, 0, data, 0);
      var direct: seq<u32>;
      ok, direct := FillBlocks(raw.value.direct, data);
      if !ok { return false; }
      var _ := WriteInodeRaw(ino, raw.value.(direct := direct, size := |data|));
    }

    method WriteFile(path: seq<byte>, data: seq<byte>) returns (ok: bool)
      requires Valid() && |data| < 0x1_0000_0000_0000_0000
      modifies this`disk
      ensures Valid() && (!ready ==> !ok && disk == old(disk))
      ensures ready ==> M.WriteFile(old(View()), path, data) == M.Outcome(View(), ok)
    {
      if !ready { return false; }
      M.WriteIsPrepared(View(), path, data);
      var prepared, ino := Prepare(path);
      if !prepared { return false; }
      ok := Fill(ino, data);
      if ok { FlushSuperblock(); }
    }

    /** The part of `write_file` before the data: an existing file is emptied, a missing one created. */
    method Prepare(path: seq<byte>) returns (ok: bool, ino: nat)
      requires Valid() && ready
      modifies this`disk
      ensures Valid() && var c := M.Prepare(old(View()), path); c.fs == View() && c.ok == ok && (ok ==> c.ino == ino)
    {
      var found := LookupPath(path);
      if found.Some? {
        ino := found.value;
        Truncate(ino);
        ok := true;
      } else {
        ok, ino := CreateFile(path);
      }
    }

    method AppendFile(path: seq<byte>, data: seq<byte>) returns (ok: bool)
      requires Valid() && M.Fits(View(), M.AppendOp(path, data)) && |data| < 0x1_0000_0000_0000_0000
      modifies this`disk
      ensures Valid() && (!ready ==> !ok && disk == old(disk))
      ensures ready ==> M.Apply(old(View()), M.AppendOp(path, data)) == M.Outcome(View(), ok)
    {
      var existing := ReadFile(path);
      var content := if existing.Some? then existing.value else [];
      ok := WriteFile(path, content + data);
    }

    method WriteAt(path: seq<byte>, offset: nat, data: seq<byte>) returns (ok: bool)
      requires Valid() && M.Fits(View(), M.WriteAtOp(path, offset, data)) && offset + |data| < 0x1_0000_0000_0000_0000
      modifies this`disk
      ensures Valid() && (!ready ==> !ok && disk == old(disk))
      ensures ready ==> M.Apply(old(View()), M.WriteAtOp(path, offset, data)) == M.Outcome(View(), ok)
    {
      var existing := ReadFile(path);
      var content := if existing.Some? then existing.value else [];
      ok := WriteFile(path, Overlay(content, offset, data));
    }

    method Touch(path: seq<byte>) returns (ok: bool)
      requires Valid()
      modifies this`disk
      ensures Valid() && (!ready ==> !ok && disk == old(disk))
      ensures ready ==> M.Apply(old(View()), M.TouchOp(path)) == M.Outcome(View(), ok)
    {
      if ready {
        var found := LookupPath(path);
        if found.Some? { return true; }
      }
      ok := WriteFile(path, []);
    }

    /** `mkdir` below a parent that exists. */
    method MkdirIn(path: seq<byte>, parent: nat) returns (ok: bool)
      requires Valid() && parent < 0x1_0000_0000
      modifies this`disk
      ensures Valid() && M.MkdirIn(old(View()), path, parent) == M.Outcome(View(), ok)
    {
      ghost var fs := View();
      S.MkdirInSound(fs, path, parent);
      var found := LookupPath(path);
      if found.Some? { return true; }
      var ino := AllocInode();
      if ino == 0 { return false; }
      S.NewInodeSound(fs, M.MODE_DIR, 2);
      var _ := WriteInodeRaw(ino, M.NewInode(M.MODE_DIR, 2));
      var _ := DirAddEntry(ino, [DOT], ino);
      var _ := DirAddEntry(ino, [DOT, DOT], parent);
      var _ := DirAddEntry(parent, M.SplitPath(path).name, ino);
      FlushSuperblock();
      ok := true;
    }

    method MkdirUnder(path: seq<byte>) returns (ok: bool)
      requires Valid()
      modifies this`disk
      ensures Valid() && M.MkdirUnder(old(View()), path) == M.Outcome(View(), ok)
    {
      var up := M.SplitPath(path).parent;
      var made := LookupPath(up);
      M.WalkRange(View(), M.INODE_ROOT, M.Components(up));
      if made.None? { return false; }
      ok := MkdirIn(path, made.value);
    }

    method Mkdir(path: seq<byte>) returns (ok: bool)
      requires Valid()
      modifies this`disk
      ensures Valid() && (!ready ==> !ok && disk == old(disk))
      ensures ready ==> M.Mkdir(old(View()), path) == M.Outcome(View(), ok)
      decreases |M.Components(path)|
    {
      if !ready { return false; }
      var s := M.SplitPath(path);
      M.SplitIsLastComponent(path);
      if s.name == [] { return true; }
      var parent := LookupPath(s.parent);
      M.WalkRange(View(), M.INODE_ROOT, M.Components(s.parent));
      if parent.None? {
        ok := Mkdir(s.parent);
        if ok { ok := MkdirUnder(path); }
      } else {
        ok := MkdirIn(path, parent.value);
      }
    }

    /** Give back the blocks of an inode and the inode itself. */
    method Release(ino: nat, inode: M.Inode)
      requires Valid() && M.InTable(ino) && inode == View().inodes[ino]
      modifies this`disk
      ensures Valid() && View() == M.Release(old(View()), ino)
    {
      S.ReleaseSound(View(), ino);
      FreePointers(inode.direct);
      var _ := WriteInodeRaw(ino, inode.(direct := M.NO_BLOCKS, mode := M.MODE_FREE));
      FreeInode(ino);
    }

    method Remove(path: seq<byte>) returns (ok: bool)
      requires Valid()
      modifies this`disk
      ensures Valid() && (!ready ==> !ok && disk == old(disk))
      ensures ready ==> M.Remove(old(View()), path) == M.Outcome(View(), ok)
    {
      if !ready { return false; }
      var found := LookupPath(path);
      if found.None? { return false; }
      var raw := ReadInodeRaw(found.value);
      if raw.None? { return false; }
      M.RemoveIs(View(), path, found.value);
      RemoveFound(path, found.value, raw.value);
      ok := true;
    }

    method RemoveFound(path: seq<byte>, ino: nat, inode: M.Inode)
      requires Valid() && M.InTable(ino) && inode == View().inodes[ino]
      modifies this`disk
      ensures Valid() && View() == M.DropName(M.Release(old(View()), ino), path)
    {
      Release(ino, inode);
      DropName(path);
      FlushSuperblock();
    }

    /** Remove the last name of `path` from its parent, if the parent resolves. */
    method DropName(path: seq<byte>)
      requires Valid()
      modifies this`disk
      ensures Valid() && View() == M.DropName(old(View()), path)
    {
      var s := M.SplitPath(path);
      var parent := LookupPath(s.parent);
      if parent.Some? {
        var _ := DirRemoveEntry(parent.value, s.name);
      }
    }

    // ---- Mounting ---------------------------------------------------------------------------------

    /** `mount` finds on a formatted disk the geometry it was formatted with. */
    method Mount(sectors: Disk, ss: nat) returns (ok: bool)
      requires |sectors| > 0 && ss >= 512 && |sectors[0]| == ss
      modifies this
      ensures disk == sectors && sectorSize == ss
      ensures ok == (FromLe64(sectors[0][0..8]) == AETERNA_MAGIC)
      ensures ok ==> ready && totalBlocks == FromLe32(sectors[0][64..68])
      ensures ok && DiskShape(sectors, ss, totalBlocks) && S.Sound(AeternaLayout.View(sectors, ss, totalBlocks)) ==> Valid()
    {
      disk := sectors;
      sectorSize := ss;
      var sb := sectors[0];
      if FromLe64(sb[0..8]) == AETERNA_MAGIC {
        freeInodes := FromLe32(sb[60..64]);
        totalBlocks := FromLe32(sb[64..68]);
        freeBlocks := FromLe32(sb[68..72]);
        ready := true;
        ok := true;
      } else {
        ok := false;
      }
    }

    // ---- Formatting -----------------------------------------------------------------------------

    /** Zero `n` sectors from `lba` on. */
    method ZeroSectors(lba: nat, n: nat)
      requires Formed() && lba + n <= |disk|
      modifies this`disk
      ensures Formed() && |disk| == |old(disk)|
      ensures forall i :: 0 <= i < |disk| ==> disk[i] == if lba <= i < lba + n then Zeros(sectorSize) else old(disk)[i]
    {
      for i := 0 to n
        invariant Formed() && |disk| == |old(disk)|
        invariant forall j :: 0 <= j < |disk| ==> disk[j] == if lba <= j < lba + i then Zeros(sectorSize) else old(disk)[j]
      {
        WriteLba(lba + i, Zeros(sectorSize));
      }
    }

    /** Write the superblock and clear the tables; inodes 0 and 1 are reserved. */
    method WriteTables(partSectors: u64, tag: seq<byte>)
      requires Formed() && totalBlocks < 0x1_0000_0000
      modifies this`disk
      ensures Formed() && SuperOk(disk[0], totalBlocks) && BlankTables(View())
    {
      WriteLba(0, Superblock(sectorSize, partSectors, totalBlocks, tag));
      WriteLba(INODE_BMAP_LBA, BitmapSet(BitmapSet(Zeros(sectorSize), 0, true), 1, true));
      ZeroSectors(BLOCK_BMAP_LBA, BLOCK_BMAP_SECTORS);
      ZeroSectors(INODE_TBL_LBA, INODE_TBL_SECTORS);
      BlankView(disk, sectorSize, totalBlocks);
    }

    /** Create the root directory: the first free block is block 0, and it is never given back. */
    method MakeRoot() returns (ok: bool)
      requires Formed() && BlankTables(View())
      modifies this`disk
      ensures Formed() && disk[0] == old(disk[0])
      ensures ok == (totalBlocks > 0)
      ensures ok ==> View() == M.Formatted(sectorSize, View().blocks)
    {
      RootIsBlockZero(View(), RootBlock(sectorSize));
      var rootBlk := AllocBlock();
      if rootBlk == NO_BLOCK { return false; }
      var direct := M.NO_BLOCKS[0 := rootBlk];
      ok := WriteInodeRaw(M.INODE_ROOT, RootInode(sectorSize, direct));
      WriteBlock(rootBlk, RootBlock(sectorSize));
    }

    /** `mkfs`: afterwards the partition holds the empty filesystem of the model, and it
        fails exactly when the partition has no room for a data block. */
    method Mkfs(partSectors: u64, tag: seq<byte>) returns (ok: bool)
      requires 512 <= sectorSize < 0x1_0000_0000 && sectorSize % 64 == 0
      requires DiskShape(disk, sectorSize, DataBlocks(partSectors))
      modifies this
      ensures sectorSize == old(sectorSize) && totalBlocks == DataBlocks(partSectors)
      ensures ok == (DataBlocks(partSectors) > 0)
      ensures ok ==> Valid() && View() == M.Formatted(sectorSize, View().blocks)
    {
      totalBlocks := DataBlocks(partSectors);
      freeBlocks := totalBlocks;
      freeInodes := M.MAX_INODES - 2;
      WriteTables(partSectors, tag);
      ok := MakeRoot();
      if ok { S.FormattedSound(sectorSize, View().blocks); }
    }
  }

  /** The number of data blocks `mkfs` manages: what follows the tables, as a 32-bit count, at most 32768. */
  function DataBlocks(partSectors: u64): (r: nat)
    ensures r <= M.MAX_BLOCKS
  {
    var room := if partSectors < DATA_START_LBA then 0 else (partSectors - DATA_START_LBA) % 0x1_0000_0000;
    Min(room, M.MAX_BLOCKS)
  }

  /** The "." and ".." entries of the root directory. */
  function RootBlock(ss: nat): seq<byte>
    requires ss >= 64
  {
    var b1 := Patch(Patch(Zeros(ss), 0, ToLe(4, M.INODE_ROOT)), 4, [DOT]);
    Patch(Patch(b1, 32, ToLe(4, M.INODE_ROOT)), 36, [DOT, DOT])
  }

  /** Bytes 8 to 64 of the superblock: version, flags and the layout. */
  function SuperLayout(partSectors: u64): (r: seq<byte>)
    ensures |r| == 56
  {
    ToLe(4, AETERNA_VERSION) + ToLe(4, 0) + ToLe(8, partSectors)
    + ToLe(8, INODE_BMAP_LBA) + ToLe(8, BLOCK_BMAP_LBA) + ToLe(8, INODE_TBL_LBA) + ToLe(8, DATA_START_LBA)
    + ToLe(4, M.MAX_INODES) + ToLe(4, M.MAX_INODES - 2)
  }

  /** The superblock sector that `mkfs` writes. */
  function Superblock(ss: nat, partSectors: u64, total: u32, tag: seq<byte>): (sb: Sector)
    requires ss >= 512
    ensures |sb| == ss && SuperOk(sb, total)
  {
    var magic := ToLe(8, AETERNA_MAGIC);
    var s1 := Patch(Zeros(ss), 0, magic);
    var s2 := Patch(s1, 8, SuperLayout(partSectors));
    var s3 := Patch(s2, 64, ToLe(4, total));
    var s4 := Patch(s3, 68, ToLe(4, total));
    var s5 := Patch(s4, 72, tag[..Min(|tag|, 63)]);
    PatchFrame(s1, 8, SuperLayout(partSectors), 0, 8);
    PatchFrame(s2, 64, ToLe(4, total), 0, 8);
    PatchFrame(s3, 68, ToLe(4, total), 0, 8);
    PatchFrame(s4, 72, tag[..Min(|tag|, 63)], 0, 8);
    PatchFrame(s3, 68, ToLe(4, total), 64, 68);
    PatchFrame(s4, 72, tag[..Min(|tag|, 63)], 64, 68);
    LeRoundTrip64(AETERNA_MAGIC);
    LeRoundTrip32(total);
    s5
  }

  /** The tables before the root directory is made. */
  ghost predicate BlankTables(fs: M.Fs) {
    && M.Shape(fs)
    && (forall i :: 0 <= i < M.MAX_INODES ==> fs.iused[i] == (i < 2))
    && (forall b :: 0 <= b < |fs.bused| ==> !fs.bused[b])
    && (forall i :: 0 <= i < M.MAX_INODES ==> fs.inodes[i] == M.Inode(0, 0, 0, 0, M.NO_BLOCKS, 0))
  }

  lemma ZeroBits(n: nat, k: nat)
    ensures !BitmapGet(Zeros(n), k)
  {
    if k / 8 < n { NoBit(k % 8); }
  }

  lemma {:induction false} NoBit(k: nat)
    ensures !Bit(0, k)
  {
    if k > 0 { NoBit(k - 1); }
  }

  lemma {:induction false} JoinZeros(disk: Disk, lba: nat, n: nat, ss: nat)
    requires lba + n <= |disk| && forall i :: lba <= i < lba + n ==> disk[i] == Zeros(ss)
    ensures Join(disk, lba, n) == Zeros(n * ss)
  {
    if n > 0 {
      JoinZeros(disk, lba, n - 1, ss);
      assert n * ss == (n - 1) * ss + ss;
    }
  }

  /** A zeroed slot is a free inode without blocks. */
  lemma BlankInode(raw: seq<byte>)
    requires raw == Zeros(64)
    ensures DecodeInode(raw) == M.Inode(0, 0, 0, 0, M.NO_BLOCKS, 0)
  {
    ToLeZero(2);
    ToLeZero(4);
    ToLeZero(8);
    assert raw[0..2] == Zeros(2) && raw[2..4] == Zeros(2);
    assert raw[4..12] == Zeros(8) && raw[12..20] == Zeros(8);
    assert raw[52..56] == Zeros(4);
    LeRoundTrip16(0);
    LeRoundTrip32(0);
    LeRoundTrip64(0);
    forall k | 0 <= k < 8 ensures DecodeInode(raw).direct[k] == 0 {
      assert raw[20 + 4 * k..24 + 4 * k] == Zeros(4);
    }
    assert DecodeInode(raw).direct == M.NO_BLOCKS;
  }

  function RootInode(ss: u64, direct: seq<u32>): M.Inode { M.Inode(M.MODE_DIR, 2, ss, 0, direct, 0) }

  /** The root directory takes block 0, so that its first pointer reads as unused. */
  lemma RootIsBlockZero(fs: M.Fs, block: seq<byte>)
    requires BlankTables(fs)
    ensures match M.AllocBlock(fs)
            case NoBlock => |fs.blocks| == 0
            case GotBlock(fs1, blk) =>
              && blk == 0 && |fs.blocks| > 0
              && var fs2 := M.WriteBlock(M.PutInode(fs1, M.INODE_ROOT, RootInode(fs.ss, M.NO_BLOCKS[0 := blk])), blk, block);
                 fs2 == M.Formatted(fs.ss, fs2.blocks)
  {
    if |fs.blocks| > 0 {
      var g := M.AllocBlock(fs);
      M.FirstClearIs(fs.bused, 0, 0);
      assert M.NO_BLOCKS[0 := 0] == M.NO_BLOCKS;
      var fs2 := M.WriteBlock(M.PutInode(g.fs, M.INODE_ROOT, RootInode(fs.ss, M.NO_BLOCKS[0 := g.blk])), g.blk, block);
      var want := M.Formatted(fs.ss, fs2.blocks);
      assert fs2.iused == want.iused;
      assert fs2.bused == want.bused;
      assert fs2.inodes == want.inodes;
    }
  }

  lemma BlankView(disk: Disk, ss: nat, total: nat)
    requires DiskShape(disk, ss, total)
    requires disk[INODE_BMAP_LBA] == BitmapSet(BitmapSet(Zeros(ss), 0, true), 1, true)
    requires forall i :: BLOCK_BMAP_LBA <= i < DATA_START_LBA ==> disk[i] == Zeros(ss)
    ensures BlankTables(AeternaLayout.View(disk, ss, total))
  {
    var fs := AeternaLayout.View(disk, ss, total);
    forall i | 0 <= i < M.MAX_INODES ensures fs.iused[i] == (i < 2) {
      ZeroBits(ss, i);
      BitmapSetSets(Zeros(ss), 0, true, i);
      BitmapSetSets(BitmapSet(Zeros(ss), 0, true), 1, true, i);
    }
    JoinZeros(disk, BLOCK_BMAP_LBA, BLOCK_BMAP_SECTORS, ss);
    forall b | 0 <= b < total ensures !fs.bused[b] { ZeroBits(BLOCK_BMAP_SECTORS * ss, b); }
    forall i | 0 <= i < M.MAX_INODES ensures fs.inodes[i] == M.Inode(0, 0, 0, 0, M.NO_BLOCKS, 0) {
      InodeSlots(ss, i);
      BlankInode(disk[InodeLba(ss, i)][InodeOff(ss, i)..InodeOff(ss, i) + 64]);
    }
  }
}
