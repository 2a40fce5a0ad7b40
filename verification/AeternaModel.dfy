/** AeternaFS as a value: the inode and block bitmaps, the inode table and the
    data blocks that the on-disk image stands for, and what every operation of
    the filesystem does to them. */
module AeternaModel {
  import opened Bytes
  import opened Paths

  const MAX_INODES := 512
  const MAX_BLOCKS := 32768
  const INODE_ROOT: nat := 1
  const MODE_FREE: u16 := 0x0000
  const MODE_REG: u16 := 0x8000
  const MODE_DIR: u16 := 0x4000
  const NO_BLOCKS: seq<u32> := [0, 0, 0, 0, 0, 0, 0, 0]

  type Name = seq<byte>

  datatype Inode = Inode(mode: u16, nlinks: u16, size: u64, mtime: u64, direct: seq<u32>, crc: u32)

  datatype Fs = Fs(ss: nat, iused: seq<bool>, bused: seq<bool>, inodes: seq<Inode>, blocks: seq<seq<byte>>)

  datatype Outcome = Outcome(fs: Fs, ok: bool)

  /** The tables have the sizes fixed by the layout. */
  ghost predicate Shape(fs: Fs) {
    && 64 <= fs.ss && fs.ss % 32 == 0 && fs.ss < 0x1_0000_0000
    && |fs.iused| == MAX_INODES == |fs.inodes|
    && |fs.bused| == |fs.blocks| <= MAX_BLOCKS
    && (forall i :: 0 <= i < MAX_INODES ==> |fs.inodes[i].direct| == 8)
    && (forall b :: 0 <= b < |fs.blocks| ==> |fs.blocks[b]| == fs.ss)
  }

  // ---- Bitmaps -------------------------------------------------------------

  /** Index of the first clear bit at or after `from`, or the length when there is none. */
  function FirstClear(bits: seq<bool>, from: nat): (r: nat)
    requires from <= |bits|
    ensures from <= r <= |bits|
    ensures r < |bits| ==> !bits[r]
    ensures forall i :: from <= i < r ==> bits[i]
    decreases |bits| - from
  {
    if from == |bits| || !bits[from] then from else FirstClear(bits, from + 1)
  }

  lemma FirstClearIs(bits: seq<bool>, from: nat, i: nat)
    requires from <= i <= |bits| && (i < |bits| ==> !bits[i])
    requires forall j :: from <= j < i ==> bits[j]
    ensures FirstClear(bits, from) == i
  {
  }

  datatype BlockAlloc = NoBlock | GotBlock(fs: Fs, blk: nat)

  /** `alloc_block`: mark the first clear block used and zero its sector. */
  function AllocBlock(fs: Fs): (r: BlockAlloc)
    requires |fs.bused| == |fs.blocks|
  {
    var i := FirstClear(fs.bused, 0);
    if i == |fs.bused| then NoBlock
    else GotBlock(fs.(bused := fs.bused[i := true], blocks := fs.blocks[i := Zeros(fs.ss)]), i)
  }

  /** `free_block`; a bit outside the managed range has no meaning and no effect. */
  function FreeBlock(fs: Fs, blk: nat): Fs {
    if blk < |fs.bused| then fs.(bused := fs.bused[blk := false]) else fs
  }

  datatype InodeAlloc = InodeAlloc(fs: Fs, ino: nat)

  /** `alloc_inode`: inodes 0 and 1 are never handed out; 0 means failure. */
  function AllocInode(fs: Fs): (r: InodeAlloc)
    requires |fs.iused| == MAX_INODES
  {
    var i := FirstClear(fs.iused, 2);
    if i == MAX_INODES then InodeAlloc(fs, 0) else InodeAlloc(fs.(iused := fs.iused[i := true]), i)
  }

  function FreeInode(fs: Fs, ino: nat): Fs {
    if ino < |fs.iused| then fs.(iused := fs.iused[ino := false]) else fs
  }

  // ---- Inodes and blocks ---------------------------------------------------

  predicate IsDir(inode: Inode) { inode.mode / 0x1000 * 0x1000 == MODE_DIR }

  predicate IsReg(inode: Inode) { inode.mode / 0x1000 * 0x1000 == MODE_REG }

  predicate InTable(ino: int) { 1 <= ino < MAX_INODES }

  function PutInode(fs: Fs, ino: nat, inode: Inode): Fs
    requires |fs.inodes| == MAX_INODES && InTable(ino)
  {
    fs.(inodes := fs.inodes[ino := inode])
  }

  /** The contents of a block. Pointers of a sound filesystem are always in range. */
  function BlockAt(fs: Fs, blk: nat): seq<byte> {
    if blk < |fs.blocks| then fs.blocks[blk] else Zeros(fs.ss)
  }

  /** `data` cut or zero-padded to one sector of `ss` bytes. */
  function Padded(ss: nat, data: seq<byte>): seq<byte> {
    if |data| < ss then data + Zeros(ss - |data|) else data[..ss]
  }

  /** Copying what fits over a zeroed buffer pads the data to a block. */
  lemma PaddedIs(ss: nat, data: seq<byte>)
    ensures |Padded(ss, data)| == ss && Patch(Zeros(ss), 0, data[..Min(|data|, ss)]) == Padded(ss, data)
  {
    assert Patch(Zeros(ss), 0, data[..Min(|data|, ss)]) == Padded(ss, data);
  }

  function WriteBlock(fs: Fs, blk: nat, data: seq<byte>): Fs {
    if blk < |fs.blocks| then fs.(blocks := fs.blocks[blk := Padded(fs.ss, data)]) else fs
  }

  // ---- Directory entries ---------------------------------------------------

  function SlotCount(block: seq<byte>): nat { |block| / 32 }

  function SlotIno(block: seq<byte>, slot: nat): u32
    requires slot < SlotCount(block)
  {
    FromLe32(block[32 * slot..32 * slot + 4])
  }

  /** The bytes before the first NUL. */
  function CString(raw: seq<byte>): (r: Name)
    ensures |r| <= |raw| && r == raw[..|r|]
    ensures 0 !in r
    ensures |r| < |raw| ==> raw[|r|] == 0
  {
    if |raw| == 0 || raw[0] == 0 then [] else [raw[0]] + CString(raw[1..])
  }

  function SlotName(block: seq<byte>, slot: nat): Name
    requires slot < SlotCount(block)
  {
    CString(block[32 * slot + 4..32 * slot + 32])
  }

  /** Entry `slot` is in use and carries `name`. */
  predicate Names(block: seq<byte>, slot: nat, name: Name)
    requires slot < SlotCount(block)
  {
    SlotIno(block, slot) != 0 && SlotName(block, slot) == name
  }

  /** First slot at or after `slot` that carries `name`, or the number of slots. */
  function FindSlot(block: seq<byte>, slot: nat, name: Name): (r: nat)
    requires slot <= SlotCount(block)
    ensures slot <= r <= SlotCount(block)
    ensures r < SlotCount(block) ==> Names(block, r, name)
    ensures forall s :: slot <= s < r ==> !Names(block, s, name)
    decreases SlotCount(block) - slot
  {
    if slot == SlotCount(block) || Names(block, slot, name) then slot else FindSlot(block, slot + 1, name)
  }

  /** First unused slot at or after `slot`, or the number of slots. */
  function FindUnused(block: seq<byte>, slot: nat): (r: nat)
    requires slot <= SlotCount(block)
    ensures slot <= r <= SlotCount(block)
    ensures r < SlotCount(block) ==> SlotIno(block, r) == 0
    ensures forall s :: slot <= s < r ==> SlotIno(block, s) != 0
    decreases SlotCount(block) - slot
  {
    if slot == SlotCount(block) || SlotIno(block, slot) == 0 then slot else FindUnused(block, slot + 1)
  }

  /** Where an entry sits: index of the direct pointer, slot in that block. */
  datatype Place = Nowhere | At(k: nat, slot: nat)

  /** First place with `name` in the blocks `direct[k..]` up to the first unused pointer. */
  function DirFind(fs: Fs, direct: seq<u32>, k: nat, name: Name): (r: Place)
    requires k <= |direct|
    decreases |direct| - k
  {
    if k == |direct| || direct[k] == 0 then Nowhere else
    var block := BlockAt(fs, direct[k]);
    var slot := FindSlot(block, 0, name);
    if slot < SlotCount(block) then At(k, slot) else DirFind(fs, direct, k + 1, name)
  }

  function DirFindUnused(fs: Fs, direct: seq<u32>, k: nat): (r: Place)
    requires k <= |direct|
    decreases |direct| - k
  {
    if k == |direct| || direct[k] == 0 then Nowhere else
    var block := BlockAt(fs, direct[k]);
    var slot := FindUnused(block, 0);
    if slot < SlotCount(block) then At(k, slot) else DirFindUnused(fs, direct, k + 1)
  }

  /** `dir_lookup` */
  function DirLookup(fs: Fs, dir: nat, name: Name): (r: Option<nat>)
    requires |fs.inodes| == MAX_INODES
  {
    if !InTable(dir) || !IsDir(fs.inodes[dir]) then None else
    var direct := fs.inodes[dir].direct;
    DirFindBounds(fs, direct, 0, name);
    match DirFind(fs, direct, 0, name)
    case Nowhere => None
    case At(k, slot) => Some(SlotIno(BlockAt(fs, direct[k]), slot))
  }

  /** What `DirFind` finds, and what it says when it finds nothing. */
  lemma {:induction false} DirFindBounds(fs: Fs, direct: seq<u32>, k: nat, name: Name)
    requires k <= |direct|
    ensures var p := DirFind(fs, direct, k, name);
            match p
            case At(j, slot) =>
              && k <= j < |direct|
              && (forall l :: k <= l <= j ==> direct[l] != 0)
              && slot < SlotCount(BlockAt(fs, direct[j]))
              && Names(BlockAt(fs, direct[j]), slot, name)
            case Nowhere => true
    decreases |direct| - k
  {
    if k < |direct| && direct[k] != 0 { DirFindBounds(fs, direct, k + 1, name); }
  }

  lemma {:induction false} DirFindUnusedBounds(fs: Fs, direct: seq<u32>, k: nat)
    requires k <= |direct|
    ensures var p := DirFindUnused(fs, direct, k);
            match p
            case At(j, slot) =>
              && k <= j < |direct|
              && (forall l :: k <= l <= j ==> direct[l] != 0)
              && slot < SlotCount(BlockAt(fs, direct[j]))
              && SlotIno(BlockAt(fs, direct[j]), slot) == 0
            case Nowhere => true
    decreases |direct| - k
  {
    if k < |direct| && direct[k] != 0 { DirFindUnusedBounds(fs, direct, k + 1); }
  }

  /** The 32 bytes of an entry: inode number, name, terminating NUL; the rest keeps its old bytes. */
  function PutEntry(block: seq<byte>, slot: nat, child: u32, name: Name): (r: seq<byte>)
    requires slot < SlotCount(block) && |name| <= 27
    ensures |r| == |block|
  {
    var b1 := Patch(block, 32 * slot, ToLe(4, child));
    var b2 := Patch(b1, 32 * slot + 4, name);
    Patch(b2, 32 * slot + 4 + |name|, [0])
  }

  function ClearEntry(block: seq<byte>, slot: nat): (r: seq<byte>)
    requires slot < SlotCount(block)
    ensures |r| == |block|
  {
    Patch(block, 32 * slot, Zeros(32))
  }

  function FirstZero(direct: seq<u32>, k: nat): (r: nat)
    requires k <= |direct|
    ensures k <= r <= |direct|
    ensures r < |direct| ==> direct[r] == 0
    ensures forall i :: k <= i < r ==> direct[i] != 0
    decreases |direct| - k
  {
    if k == |direct| || direct[k] == 0 then k else FirstZero(direct, k + 1)
  }

  /** `dir_add_entry` */
  function DirAdd(fs: Fs, dir: nat, name: Name, child: u32): (r: Outcome)
    requires Shape(fs)
  {
    if !InTable(dir) || !IsDir(fs.inodes[dir]) || |name| > 27 then Outcome(fs, false) else
    var inode := fs.inodes[dir];
    DirFindUnusedBounds(fs, inode.direct, 0);
    match DirFindUnused(fs, inode.direct, 0)
    case At(k, slot) =>
      var blk := inode.direct[k];
      Outcome(WriteBlock(fs, blk, PutEntry(BlockAt(fs, blk), slot, child, name)), true)
    case Nowhere =>
      var k := FirstZero(inode.direct, 0);
      if k == 8 then Outcome(fs, false) else
      match AllocBlock(fs)
      case NoBlock => Outcome(fs, false)
      case GotBlock(fs1, blk) =>
        var grown := inode.(direct := inode.direct[k := blk], size := (inode.size + fs.ss) % 0x1_0000_0000_0000_0000);
        var fs2 := PutInode(fs1, dir, grown);
        Outcome(WriteBlock(fs2, blk, PutEntry(Zeros(fs.ss), 0, child, name)), true)
  }

  /** The directory grows by a fresh block behind pointer `k`, with the entry in its first slot. */
  function DirGrow(fs: Fs, dir: nat, name: Name, child: u32, k: nat): (r: Outcome)
    requires Shape(fs) && InTable(dir) && |name| <= 27 && k < 8
  {
    var inode := fs.inodes[dir];
    match AllocBlock(fs)
    case NoBlock => Outcome(fs, false)
    case GotBlock(fs1, blk) =>
      var grown := inode.(direct := inode.direct[k := blk], size := (inode.size + fs.ss) % 0x1_0000_0000_0000_0000);
      Outcome(WriteBlock(PutInode(fs1, dir, grown), blk, PutEntry(Zeros(fs.ss), 0, child, name)), true)
  }

  /** A directory without a free slot grows behind its first unused pointer. */
  lemma DirAddGrown(fs: Fs, dir: nat, name: Name, child: u32, k: nat)
    requires Shape(fs) && InTable(dir) && IsDir(fs.inodes[dir]) && |name| <= 27
    requires DirFindUnused(fs, fs.inodes[dir].direct, 0).Nowhere? && k < 8 && FirstZero(fs.inodes[dir].direct, 0) == k
    ensures DirAdd(fs, dir, name, child) == DirGrow(fs, dir, name, child, k)
  {
  }

  /** `dir_remove_entry` */
  function DirRemove(fs: Fs, dir: nat, name: Name): (r: Outcome)
    requires Shape(fs)
  {
    if !InTable(dir) || !IsDir(fs.inodes[dir]) then Outcome(fs, false) else
    var direct := fs.inodes[dir].direct;
    DirFindBounds(fs, direct, 0, name);
    match DirFind(fs, direct, 0, name)
    case Nowhere => Outcome(fs, false)
    case At(k, slot) =>
      Outcome(WriteBlock(fs, direct[k], ClearEntry(BlockAt(fs, direct[k]), slot)), true)
  }

  // ---- Paths -----------------------------------------------------------------

  datatype Split = Split(parent: seq<byte>, name: Name)

  /** `split_path` */
  function SplitPath(path: seq<byte>): (r: Split) {
    var p := TrimEnd(path);
    if p == [] then Split([SLASH], []) else
    var i := LastSlash(p);
    if i == 0 then Split([SLASH], p[1..])
    else if i > 0 then Split(p[..i], p[i + 1..])
    else Split([SLASH], p)
  }

  /** Length of the run of non-slash bytes at the front. */
  function Run(path: seq<byte>): (r: nat)
    ensures r <= |path|
    ensures forall i :: 0 <= i < r ==> path[i] != SLASH
    ensures r < |path| ==> path[r] == SLASH
  {
    if |path| == 0 || path[0] == SLASH then 0 else 1 + Run(path[1..])
  }

  /** The non-empty components that `lookup_path` walks over. */
  function Components(path: seq<byte>): (r: seq<Name>)
    ensures forall i :: 0 <= i < |r| ==> |r[i]| > 0 && SLASH !in r[i]
    decreases |path|
  {
    if |path| == 0 then []
    else if path[0] == SLASH then Components(path[1..])
    else var n := Run(path); [path[..n]] + Components(path[n..])
  }

  /** Walk `comps` down from inode `ino`. */
  function Walk(fs: Fs, ino: nat, comps: seq<Name>): (r: Option<nat>)
    requires |fs.inodes| == MAX_INODES
    decreases |comps|
  {
    if comps == [] then Some(ino) else
    match DirLookup(fs, ino, comps[0])
    case None => None
    case Some(next) => Walk(fs, next, comps[1..])
  }

  /** `lookup_path` */
  function LookupPath(fs: Fs, path: seq<byte>): (r: Option<nat>)
    requires |fs.inodes| == MAX_INODES
  {
    Walk(fs, INODE_ROOT, Components(path))
  }

  // ---- Files -------------------------------------------------------------------

  /** The block loop of `read_file`. */
  function ReadBlocks(fs: Fs, direct: seq<u32>, size: nat, k: nat, acc: seq<byte>): (r: seq<byte>)
    requires k <= |direct|
    decreases |direct| - k
  {
    if k == |direct| || direct[k] == 0 then acc else
    var block := BlockAt(fs, direct[k]);
    var remaining := if size <= |acc| then 0 else size - |acc|;
    var taken := acc + block[..Min(Min(remaining, fs.ss), |block|)];
    if |taken| >= size then taken else ReadBlocks(fs, direct, size, k + 1, taken)
  }

  /** `read_file` once the path is resolved to `ino`. */
  function ReadInode(fs: Fs, ino: nat): (r: Option<seq<byte>>)
    requires |fs.inodes| == MAX_INODES
  {
    if !InTable(ino) || !IsReg(fs.inodes[ino]) then None
    else Some(ReadBlocks(fs, fs.inodes[ino].direct, fs.inodes[ino].size, 0, []))
  }

  /** `read_file` */
  function ReadFile(fs: Fs, path: seq<byte>): (r: Option<seq<byte>>)
    requires |fs.inodes| == MAX_INODES
  {
    match LookupPath(fs, path)
    case None => None
    case Some(ino) => ReadInode(fs, ino)
  }

  /** The loop that frees the direct pointers of an inode. */
  function FreeAll(fs: Fs, direct: seq<u32>, k: nat): (r: Fs)
    requires k <= |direct|
    decreases |direct| - k
  {
    if k == |direct| then fs
    else FreeAll(if direct[k] != 0 then FreeBlock(fs, direct[k]) else fs, direct, k + 1)
  }

  /** First half of `write_file` on an existing path: drop the old contents of a regular file. */
  function Truncate(fs: Fs, ino: nat): (r: Fs)
    requires Shape(fs)
    ensures Shape(r)
  {
    if !InTable(ino) || !IsReg(fs.inodes[ino]) then fs else
    var inode := fs.inodes[ino];
    var fs1 := FreeAll(fs, inode.direct, 0);
    FreeAllKeeps(fs, inode.direct, 0);
    PutInode(fs1, ino, inode.(direct := NO_BLOCKS, size := 0))
  }

  lemma {:induction false} FreeAllKeeps(fs: Fs, direct: seq<u32>, k: nat)
    requires k <= |direct|
    ensures var r := FreeAll(fs, direct, k);
            && r == fs.(bused := r.bused) && |r.bused| == |fs.bused|
            && (|fs.bused| > 0 ==> r.bused[0] == fs.bused[0])
    decreases |direct| - k
  {
    if k < |direct| {
      FreeAllKeeps(if direct[k] != 0 then FreeBlock(fs, direct[k]) else fs, direct, k + 1);
    }
  }

  /** Freeing a list of pointers leaves the bit of a block outside the list alone. */
  lemma {:induction false} FreeAllBit(fs: Fs, direct: seq<u32>, k: nat, blk: nat)
    requires k <= |direct| && blk < |fs.bused|
    requires forall l :: k <= l < |direct| ==> direct[l] != blk
    ensures var r := FreeAll(fs, direct, k); |r.bused| == |fs.bused| && r.bused[blk] == fs.bused[blk]
    decreases |direct| - k
  {
    FreeAllKeeps(fs, direct, k);
    if k < |direct| {
      FreeAllBit(if direct[k] != 0 then FreeBlock(fs, direct[k]) else fs, direct, k + 1, blk);
    }
  }

  datatype Filled = Filled(fs: Fs, direct: seq<u32>, ok: bool)

  /** The chunk loop of `write_file`: one fresh block for each chunk, at most |direct| of them. */
  function FillBlocks(fs: Fs, direct: seq<u32>, k: nat, data: seq<byte>, written: nat): (r: Filled)
    requires Shape(fs)
    requires k <= |direct| && written <= |data|
    decreases |direct| - k
  {
    if k == |direct| || written >= |data| then Filled(fs, direct, true) else
    match AllocBlock(fs)
    case NoBlock => Filled(fs, direct, false)
    case GotBlock(fs1, blk) =>
      var end := Min(written + fs.ss, |data|);
      var fs2 := WriteBlock(fs1, blk, data[written..end]);
      FillBlocks(fs2, direct[k := blk], k + 1, data, end)
  }

  lemma {:induction false} FillBlocksKeeps(fs: Fs, direct: seq<u32>, k: nat, data: seq<byte>, written: nat)
    requires Shape(fs)
    requires k <= |direct| && written <= |data|
    ensures var r := FillBlocks(fs, direct, k, data, written);
            && Shape(r.fs) && |r.direct| == |direct|
            && r.fs == fs.(bused := r.fs.bused, blocks := r.fs.blocks)
            && |r.fs.bused| == |fs.bused|
            && (forall b :: 0 <= b < |fs.bused| && fs.bused[b] ==> r.fs.bused[b] && r.fs.blocks[b] == fs.blocks[b])
    decreases |direct| - k
  {
    if k < |direct| && written < |data| && AllocBlock(fs).GotBlock? {
      var g := AllocBlock(fs);
      var end := Min(written + fs.ss, |data|);
      var fs2 := WriteBlock(g.fs, g.blk, data[written..end]);
      FillBlocksKeeps(fs2, direct[k := g.blk], k + 1, data, end);
    }
  }

  /** Second half of `write_file`: store `data` under `ino`. */
  function Fill(fs: Fs, ino: nat, data: seq<byte>): (r: Outcome)
    requires Shape(fs) && |data| < 0x1_0000_0000_0000_0000
    ensures Shape(r.fs)
  {
    if !InTable(ino) then Outcome(fs, false) else
    var inode := fs.inodes[ino];
    var f := FillBlocks(fs, inode.direct, 0, data, 0);
    FillBlocksKeeps(fs, inode.direct, 0, data, 0);
    if !f.ok then Outcome(f.fs, false)
    else Outcome(PutInode(f.fs, ino, inode.(direct := f.direct, size := |data|)), true)
  }

  function NewInode(mode: u16, nlinks: u16): Inode { Inode(mode, nlinks, 0, 0, NO_BLOCKS, 0) }

  datatype Creation = Creation(fs: Fs, ok: bool, ino: nat)

  /** Shape is kept by every building block. */
  lemma ShapeKept(fs: Fs)
    requires Shape(fs)
    ensures AllocBlock(fs).GotBlock? ==> Shape(AllocBlock(fs).fs)
    ensures Shape(AllocInode(fs).fs)
    ensures AllocInode(fs).ino != 0 ==> InTable(AllocInode(fs).ino)
  {
  }

  lemma DirAddShape(fs: Fs, dir: nat, name: Name, child: u32)
    requires Shape(fs)
    ensures var r := DirAdd(fs, dir, name, child).fs;
            Shape(r) && |r.bused| == |fs.bused| && r.ss == fs.ss && r.iused == fs.iused
  {
    if InTable(dir) && IsDir(fs.inodes[dir]) && |name| <= 27 {
      DirFindUnusedBounds(fs, fs.inodes[dir].direct, 0);
    }
  }

  lemma DirRemoveShape(fs: Fs, dir: nat, name: Name)
    requires Shape(fs)
    ensures var r := DirRemove(fs, dir, name).fs;
            Shape(r) && r == fs.(blocks := r.blocks)
  {
    if InTable(dir) && IsDir(fs.inodes[dir]) {
      DirFindBounds(fs, fs.inodes[dir].direct, 0, name);
    }
  }

  /** The creating branch of `write_file`: a new regular inode entered in its parent. */
  function CreateFile(fs: Fs, path: seq<byte>): (r: Creation)
    requires Shape(fs)
    ensures Shape(r.fs)
  {
    var s := SplitPath(path);
    match LookupPath(fs, s.parent)
    case None => Creation(fs, false, 0)
    case Some(parent) =>
      var a := AllocInode(fs);
      ShapeKept(fs);
      if a.ino == 0 then Creation(a.fs, false, 0) else
      var fs1 := PutInode(a.fs, a.ino, NewInode(MODE_REG, 1));
      DirAddShape(fs1, parent, s.name, a.ino);
      var d := DirAdd(fs1, parent, s.name, a.ino);
      Creation(d.fs, d.ok, a.ino)
  }

  /** `write_file` */
  function WriteFile(fs: Fs, path: seq<byte>, data: seq<byte>): (r: Outcome)
    requires Shape(fs) && |data| < 0x1_0000_0000_0000_0000
    ensures Shape(r.fs)
  {
    match LookupPath(fs, path)
    case Some(ino) =>
      Fill(Truncate(fs, ino), ino, data)
    case None =>
      var c := CreateFile(fs, path);
      if !c.ok then Outcome(c.fs, false) else Fill(c.fs, c.ino, data)
  }

  /** `write_file` before the data is written. */
  function Prepare(fs: Fs, path: seq<byte>): (r: Creation)
    requires Shape(fs)
  {
    match LookupPath(fs, path)
    case Some(ino) => Creation(Truncate(fs, ino), true, ino)
    case None => CreateFile(fs, path)
  }

  lemma WriteIsPrepared(fs: Fs, path: seq<byte>, data: seq<byte>)
    requires Shape(fs) && |data| < 0x1_0000_0000_0000_0000
    ensures var c := Prepare(fs, path);
            Shape(c.fs) && WriteFile(fs, path, data) == if c.ok then Fill(c.fs, c.ino, data) else Outcome(c.fs, false)
  {
  }

  // ---- Splitting a path agrees with walking it ------------------------------

  lemma RunIs(path: seq<byte>, n: nat)
    requires n <= |path|
    requires forall i :: 0 <= i < n ==> path[i] != SLASH
    requires n < |path| ==> path[n] == SLASH
    ensures Run(path) == n
  {
  }

  lemma {:induction false} ComponentsOfName(name: seq<byte>)
    requires |name| > 0 && SLASH !in name
    ensures Components(name) == [name]
  {
    assert Run(name) == |name|;
    assert name[..|name|] == name && name[|name|..] == [];
  }

  /** Appending "/name" to a path appends one component. */
  lemma {:induction false} ComponentsAppend(dir: seq<byte>, name: seq<byte>)
    requires |name| > 0 && SLASH !in name
    ensures Components(dir + [SLASH] + name) == Components(dir) + [name]
    decreases |dir|
  {
    var p := dir + [SLASH] + name;
    if |dir| == 0 {
      assert p[1..] == name;
      ComponentsOfName(name);
    } else if dir[0] == SLASH {
      assert p[1..] == dir[1..] + [SLASH] + name;
      ComponentsAppend(dir[1..], name);
    } else {
      var n := Run(dir);
      RunIs(p, n);
      assert p[..n] == dir[..n] && p[n..] == dir[n..] + [SLASH] + name;
      ComponentsAppend(dir[n..], name);
      assert Components(p) == [dir[..n]] + (Components(dir[n..]) + [name]);
    }
  }

  lemma {:induction false} ComponentsTrailing(path: seq<byte>)
    ensures Components(path + [SLASH]) == Components(path)
    decreases |path|
  {
    var p := path + [SLASH];
    if |path| == 0 {
      assert p[1..] == [];
    } else if path[0] == SLASH {
      assert p[1..] == path[1..] + [SLASH];
      ComponentsTrailing(path[1..]);
    } else {
      var n := Run(path);
      RunIs(p, n);
      assert p[..n] == path[..n] && p[n..] == path[n..] + [SLASH];
      ComponentsTrailing(path[n..]);
    }
  }

  lemma {:induction false} ComponentsTrim(path: seq<byte>)
    ensures Components(TrimEnd(path)) == Components(path)
    decreases |path|
  {
    if |path| > 0 && path[|path| - 1] == SLASH {
      var front := path[..|path| - 1];
      assert path == front + [SLASH];
      ComponentsTrailing(front);
      ComponentsTrim(front);
    }
  }

  lemma {:induction false} ComponentsNonEmpty(path: seq<byte>)
    requires |path| > 0 && path[|path| - 1] != SLASH
    ensures Components(path) != []
    decreases |path|
  {
    if path[0] == SLASH { ComponentsNonEmpty(path[1..]); }
  }

  /** `split_path` cuts off exactly the last component that `lookup_path` walks;
      it yields no name precisely for the paths that name the root. */
  lemma SplitIsLastComponent(path: seq<byte>)
    ensures var s := SplitPath(path);
            if Components(path) == [] then s.name == [] && Components(s.parent) == []
            else |s.name| > 0 && SLASH !in s.name && Components(path) == Components(s.parent) + [s.name]
  {
    var p := TrimEnd(path);
    ComponentsTrim(path);
    assert Components([SLASH]) == [] by { assert [SLASH][1..] == []; }
    if p != [] {
      ComponentsNonEmpty(p);
      var i := LastSlash(p);
      if i >= 0 {
        var name := p[i + 1..];
        assert p == p[..i] + [SLASH] + name;
        ComponentsAppend(p[..i], name);
        if i == 0 { assert p[..i] == []; }
      } else {
        ComponentsOfName(p);
      }
    }
  }

  lemma {:induction false} WalkAppend(fs: Fs, ino: nat, a: seq<Name>, b: seq<Name>)
    requires |fs.inodes| == MAX_INODES
    ensures Walk(fs, ino, a + b) == (match Walk(fs, ino, a) case None => None case Some(i) => Walk(fs, i, b))
    decreases |a|
  {
    if a == [] {
      assert a + b == b;
    } else {
      assert (a + b)[1..] == a[1..] + b;
      match DirLookup(fs, ino, a[0])
      case None =>
      case Some(next) => WalkAppend(fs, next, a[1..], b);
    }
  }

  /** Resolving a path is resolving its parent and looking the last name up there. */
  lemma LookupThroughParent(fs: Fs, path: seq<byte>)
    requires |fs.inodes| == MAX_INODES
    requires Components(path) != []
    ensures var s := SplitPath(path);
            LookupPath(fs, path) ==
            (match LookupPath(fs, s.parent) case None => None case Some(dir) => DirLookup(fs, dir, s.name))
  {
    SplitIsLastComponent(path);
    var s := SplitPath(path);
    WalkAppend(fs, INODE_ROOT, Components(s.parent), [s.name]);
    match LookupPath(fs, s.parent)
    case None =>
    case Some(dir) =>
      assert [s.name][1..] == [];
      match DirLookup(fs, dir, s.name) case None => case Some(i) => assert Walk(fs, i, []) == Some(i);
  }

  // ---- Directories, removal and derived operations ----------------------------

  /** `mkdir` once the parent is known: the results of the three entries are ignored. */
  function MkdirIn(fs: Fs, path: seq<byte>, parent: nat): (r: Outcome)
    requires Shape(fs) && parent < 0x1_0000_0000
    ensures Shape(r.fs)
  {
    if LookupPath(fs, path).Some? then Outcome(fs, true) else
    var a := AllocInode(fs);
    ShapeKept(fs);
    if a.ino == 0 then Outcome(a.fs, false) else
    var fs1 := PutInode(a.fs, a.ino, NewInode(MODE_DIR, 2));
    DirAddShape(fs1, a.ino, [DOT], a.ino);
    var fs2 := DirAdd(fs1, a.ino, [DOT], a.ino).fs;
    DirAddShape(fs2, a.ino, [DOT, DOT], parent);
    var fs3 := DirAdd(fs2, a.ino, [DOT, DOT], parent).fs;
    var name := SplitPath(path).name;
    DirAddShape(fs3, parent, name, a.ino);
    Outcome(DirAdd(fs3, parent, name, a.ino).fs, true)
  }

  /** Inode numbers stored on disk are 32 bits wide. */
  lemma {:induction false} WalkRange(fs: Fs, ino: nat, comps: seq<Name>)
    requires |fs.inodes| == MAX_INODES
    requires ino < 0x1_0000_0000
    ensures var r := Walk(fs, ino, comps); r.Some? ==> r.value < 0x1_0000_0000
    decreases |comps|
  {
    if comps != [] {
      match DirLookup(fs, ino, comps[0])
      case None =>
      case Some(next) => WalkRange(fs, next, comps[1..]);
    }
  }

  /** `mkdir` after its parents were made. */
  function MkdirUnder(fs: Fs, path: seq<byte>): (r: Outcome)
    requires Shape(fs)
    ensures Shape(r.fs)
  {
    var up := SplitPath(path).parent;
    WalkRange(fs, INODE_ROOT, Components(up));
    match LookupPath(fs, up)
    case None => Outcome(fs, false)
    case Some(parent) => MkdirIn(fs, path, parent)
  }

  /** `mkdir`: missing parents are made first. */
  function Mkdir(fs: Fs, path: seq<byte>): (r: Outcome)
    requires Shape(fs)
    ensures Shape(r.fs)
    decreases |Components(path)|
  {
    var s := SplitPath(path);
    SplitIsLastComponent(path);
    if s.name == [] then Outcome(fs, true) else
    WalkRange(fs, INODE_ROOT, Components(s.parent));
    match LookupPath(fs, s.parent)
    case Some(parent) => MkdirIn(fs, path, parent)
    case None =>
      var m := Mkdir(fs, s.parent);
      if !m.ok then m else MkdirUnder(m.fs, path)
  }

  /** `remove` up to the point where the parent's entry is dropped. */
  function Release(fs: Fs, ino: nat): (r: Fs)
    requires Shape(fs) && InTable(ino)
    ensures Shape(r)
  {
    var inode := fs.inodes[ino];
    FreeAllKeeps(fs, inode.direct, 0);
    FreeInode(PutInode(FreeAll(fs, inode.direct, 0), ino, inode.(direct := NO_BLOCKS, mode := MODE_FREE)), ino)
  }

  /** Drop the last name of `path` from its parent, if the parent resolves. */
  function DropName(fs: Fs, path: seq<byte>): (r: Fs)
    requires Shape(fs)
    ensures Shape(r)
  {
    var s := SplitPath(path);
    match LookupPath(fs, s.parent)
    case None => fs
    case Some(dir) =>
      DirRemoveShape(fs, dir, s.name);
      DirRemove(fs, dir, s.name).fs
  }

  /** `remove` */
  function Remove(fs: Fs, path: seq<byte>): (r: Outcome)
    requires Shape(fs)
    ensures Shape(r.fs)
  {
    match LookupPath(fs, path)
    case None => Outcome(fs, false)
    case Some(ino) =>
      if !InTable(ino) then Outcome(fs, false) else
      Outcome(DropName(Release(fs, ino), path), true)
  }

  lemma RemoveIs(fs: Fs, path: seq<byte>, ino: nat)
    requires Shape(fs) && LookupPath(fs, path) == Some(ino) && InTable(ino)
    ensures Remove(fs, path) == Outcome(DropName(Release(fs, ino), path), true)
  {
  }

  /** The contents `append_file` and `write_at` start from: nothing when the path is no regular file. */
  function OldContents(fs: Fs, path: seq<byte>): (r: seq<byte>)
    requires |fs.inodes| == MAX_INODES
  {
    match ReadFile(fs, path) case None => [] case Some(data) => data
  }

  datatype Op =
    | WriteOp(path: seq<byte>, data: seq<byte>)
    | AppendOp(path: seq<byte>, data: seq<byte>)
    | WriteAtOp(path: seq<byte>, offset: nat, data: seq<byte>)
    | TouchOp(path: seq<byte>)
    | MkdirOp(path: seq<byte>)
    | RemoveOp(path: seq<byte>)

  /** The bytes an operation hands to `write_file`; they fit in memory. */
  ghost predicate Fits(fs: Fs, op: Op)
    requires |fs.inodes| == MAX_INODES
  {
    match op
    case WriteOp(_, data) => |data| < 0x1_0000_0000_0000_0000
    case AppendOp(path, data) => |OldContents(fs, path) + data| < 0x1_0000_0000_0000_0000
    case WriteAtOp(path, offset, data) => |Overlay(OldContents(fs, path), offset, data)| < 0x1_0000_0000_0000_0000
    case _ => true
  }

  /** One call of the filesystem interface, with any arguments. */
  ghost function Apply(fs: Fs, op: Op): (r: Outcome)
    requires Shape(fs) && Fits(fs, op)
    ensures Shape(r.fs)
  {
    match op
    case WriteOp(path, data) => WriteFile(fs, path, data)
    case AppendOp(path, data) => WriteFile(fs, path, OldContents(fs, path) + data)
    case WriteAtOp(path, offset, data) => WriteFile(fs, path, Overlay(OldContents(fs, path), offset, data))
    case TouchOp(path) => if LookupPath(fs, path).Some? then Outcome(fs, true) else WriteFile(fs, path, [])
    case MkdirOp(path) => Mkdir(fs, path)
    case RemoveOp(path) => Remove(fs, path)
  }

  /** What `mkfs` leaves behind: block 0 was taken for the root directory, whose
      first pointer is therefore 0 and reads as "no block". */
  function Formatted(ss: nat, blocks: seq<seq<byte>>): (r: Fs)
    requires |blocks| > 0
  {
    var free := Inode(0, 0, 0, 0, NO_BLOCKS, 0);
    Fs(ss,
       seq(MAX_INODES, i => i < 2),
       seq(|blocks|, b => b == 0),
       seq(MAX_INODES, i => if i == INODE_ROOT then Inode(MODE_DIR, 2, ss % 0x1_0000_0000_0000_0000, 0, NO_BLOCKS, 0) else free),
       blocks)
  }
}
