/** AeternaFS as a store of files: what a write, a mkdir and a remove do to the
    contents seen through every path of the filesystem. */
module AeternaFiles {
  import opened Bytes
  import opened AeternaModel
  import opened AeternaSound
  import opened AeternaDirs

  // ---- What a kept inode still shows ------------------------------------------------

  lemma {:induction false} ReadBlocksSame(fs: Fs, fs1: Fs, ds: seq<u32>, size: nat, k: nat, acc: seq<byte>)
    requires k <= |ds| && fs1.ss == fs.ss
    requires forall l :: 0 <= l < |ds| && ds[l] != 0 ==> BlockAt(fs1, ds[l]) == BlockAt(fs, ds[l])
    ensures ReadBlocks(fs1, ds, size, k, acc) == ReadBlocks(fs, ds, size, k, acc)
    decreases |ds| - k
  {
    if k < |ds| && ds[k] != 0 {
      var block := BlockAt(fs, ds[k]);
      var remaining := if size <= |acc| then 0 else size - |acc|;
      ReadBlocksSame(fs, fs1, ds, size, k + 1, acc + block[..Min(Min(remaining, fs.ss), |block|)]);
    }
  }

  lemma {:induction false} DirFindSame(fs: Fs, fs1: Fs, ds: seq<u32>, k: nat, name: Name)
    requires k <= |ds|
    requires forall l :: 0 <= l < |ds| && ds[l] != 0 ==> BlockAt(fs1, ds[l]) == BlockAt(fs, ds[l])
    ensures DirFind(fs1, ds, k, name) == DirFind(fs, ds, k, name)
    decreases |ds| - k
  {
    if k < |ds| && ds[k] != 0 { DirFindSame(fs, fs1, ds, k + 1, name); }
  }

  lemma KeptBlocks(fs: Fs, fs1: Fs, x: nat, i: nat)
    requires Keeps(fs, fs1, x) && InTable(i) && i != x
    ensures forall l :: 0 <= l < 8 && fs.inodes[i].direct[l] != 0 ==>
              BlockAt(fs1, fs.inodes[i].direct[l]) == BlockAt(fs, fs.inodes[i].direct[l])
  {
    forall l | 0 <= l < 8 && fs.inodes[i].direct[l] != 0
      ensures BlockAt(fs1, fs.inodes[i].direct[l]) == BlockAt(fs, fs.inodes[i].direct[l])
    {
      assert SameBlock(fs, fs1, i, l);
    }
  }

  lemma KeptLookup(fs: Fs, fs1: Fs, x: nat, i: nat, name: Name)
    requires Keeps(fs, fs1, x) && i != x
    ensures DirLookup(fs1, i, name) == DirLookup(fs, i, name)
  {
    if InTable(i) && IsDir(fs.inodes[i]) {
      KeptBlocks(fs, fs1, x, i);
      DirFindSame(fs, fs1, fs.inodes[i].direct, 0, name);
      DirFindBounds(fs, fs.inodes[i].direct, 0, name);
    }
  }

  lemma KeptRead(fs: Fs, fs1: Fs, x: nat, i: nat)
    requires Keeps(fs, fs1, x) && i != x
    ensures ReadInode(fs1, i) == ReadInode(fs, i)
  {
    if InTable(i) && IsReg(fs.inodes[i]) {
      KeptBlocks(fs, fs1, x, i);
      ReadBlocksSame(fs, fs1, fs.inodes[i].direct, fs.inodes[i].size, 0, []);
    }
  }

  lemma KeepsTrans(fs: Fs, fs1: Fs, fs2: Fs, x: nat)
    requires Keeps(fs, fs1, x) && Keeps(fs1, fs2, x)
    ensures Keeps(fs, fs2, x)
  {
    forall i: nat, k: nat | i != x ensures SameBlock(fs, fs2, i, k) {
      assert SameBlock(fs, fs1, i, k) && SameBlock(fs1, fs2, i, k);
    }
  }

  // ---- Entries and paths -----------------------------------------------------------------

  /** Every directory entry is the same in both states. */
  ghost predicate SameEntries(fs: Fs, fs1: Fs) {
    && |fs.inodes| == MAX_INODES == |fs1.inodes|
    && forall i: nat, n: Name :: DirLookup(fs1, i, n) == DirLookup(fs, i, n)
  }

  lemma {:induction false} SameWalk(fs: Fs, fs1: Fs, ino: nat, comps: seq<Name>)
    requires SameEntries(fs, fs1)
    ensures Walk(fs1, ino, comps) == Walk(fs, ino, comps)
    decreases |comps|
  {
    if comps != [] {
      match DirLookup(fs, ino, comps[0])
      case None =>
      case Some(next) => SameWalk(fs, fs1, next, comps[1..]);
    }
  }

  /** If only a non-directory changes, every directory entry stays. */
  lemma EntriesAroundFile(fs: Fs, fs1: Fs, x: nat)
    requires Keeps(fs, fs1, x)
    requires InTable(x) ==> !IsDir(fs.inodes[x]) && !IsDir(fs1.inodes[x])
    ensures SameEntries(fs, fs1)
  {
    forall i: nat, n: Name ensures DirLookup(fs1, i, n) == DirLookup(fs, i, n) {
      if i != x { KeptLookup(fs, fs1, x, i, n); }
    }
  }

  /** The only new entry is `name` in `dir`, naming `child`, which is no directory. */
  ghost predicate NewLeaf(fs: Fs, fs1: Fs, dir: nat, name: Name, child: nat) {
    && |fs.inodes| == MAX_INODES == |fs1.inodes|
    && DirLookup(fs, dir, name) == None
    && (forall n: Name :: DirLookup(fs1, child, n) == None)
    && (forall i: nat, n: Name ::
          DirLookup(fs1, i, n) == if i == dir && n == name then Some(child) else DirLookup(fs, i, n))
  }

  /** `comps` leads from `ino` to the name `name` in `dir`. */
  ghost predicate LeadsTo(fs: Fs, ino: nat, comps: seq<Name>, dir: nat, name: Name)
    requires |fs.inodes| == MAX_INODES
  {
    comps != [] && Walk(fs, ino, comps[..|comps| - 1]) == Some(dir) && comps[|comps| - 1] == name
  }

  /** Old paths resolve as before; the only new ones end in the new entry. */
  lemma {:induction false} WalkNewLeaf(fs: Fs, fs1: Fs, dir: nat, name: Name, child: nat, ino: nat, comps: seq<Name>)
    requires NewLeaf(fs, fs1, dir, name, child)
    ensures Walk(fs1, ino, comps) ==
            if Walk(fs, ino, comps).Some? then Walk(fs, ino, comps)
            else if LeadsTo(fs, ino, comps, dir, name) then Some(child) else None
    decreases |comps|
  {
    if comps != [] {
      var rest := comps[1..];
      if ino == dir && comps[0] == name {
        if rest == [] {
          assert comps[..|comps| - 1] == [];
        } else {
          assert Walk(fs1, child, rest) == None;
          assert comps[..|comps| - 1][0] == name;
        }
      } else if DirLookup(fs, ino, comps[0]).Some? {
        var next := DirLookup(fs, ino, comps[0]).value;
        WalkNewLeaf(fs, fs1, dir, name, child, next, rest);
        if rest != [] {
          assert comps[..|comps| - 1][1..] == rest[..|rest| - 1];
          assert comps[..|comps| - 1][0] == comps[0];
        } else {
          assert Walk(fs, next, []) == Some(next);
        }
      } else if rest != [] {
        assert comps[..|comps| - 1][0] == comps[0];
      } else {
        assert comps[..|comps| - 1] == [];
      }
    }
  }

  // ---- Storing data under an inode -----------------------------------------------------

  lemma FillKeeps(fs: Fs, ino: nat, data: seq<byte>)
    requires Sound(fs) && |data| < 0x1_0000_0000_0000_0000
    ensures var fs1 := Fill(fs, ino, data).fs;
            && Keeps(fs, fs1, ino) && fs1.iused == fs.iused
            && (InTable(ino) ==> fs1.inodes[ino].mode == fs.inodes[ino].mode)
  {
    if InTable(ino) { FillBlocksKeeps(fs, fs.inodes[ino].direct, 0, data, 0); }
    MarkedKeeps(fs, Fill(fs, ino, data).fs, ino);
  }

  lemma {:induction false} FillBlocksPrefix(fs: Fs, ds: seq<u32>, k: nat, data: seq<byte>, written: nat)
    requires Shape(fs) && k <= |ds| && written <= |data|
    ensures var r := FillBlocks(fs, ds, k, data, written);
            |r.direct| == |ds| && forall j :: 0 <= j < k ==> r.direct[j] == ds[j]
    decreases |ds| - k
  {
    if k < |ds| && written < |data| && AllocBlock(fs).GotBlock? {
      var g := AllocBlock(fs);
      var end := Min(written + fs.ss, |data|);
      FillBlocksPrefix(WriteBlock(g.fs, g.blk, data[written..end]), ds[k := g.blk], k + 1, data, end);
    }
  }

  /** One chunk of a file as the reader sees it. */
  lemma ChunkRead(fs: Fs, data: seq<byte>, written: nat, block: seq<byte>)
    requires fs.ss > 0 && written < |data|
    requires var end := Min(written + fs.ss, |data|); block == Padded(fs.ss, data[written..end])
    ensures var end := Min(written + fs.ss, |data|);
            && |block| == fs.ss
            && data[..written] + block[..Min(Min(|data| - written, fs.ss), |block|)] == data[..end]
  {
    var end := Min(written + fs.ss, |data|);
    var chunk := data[written..end];
    assert block[..|chunk|] == chunk;
    assert data[..written] + chunk == data[..end];
  }

  /** One turn of the read loop that adds the bytes from `written` to `end`. */
  lemma ReadStep(fs: Fs, ds: seq<u32>, k: nat, data: seq<byte>, written: nat, end: nat)
    requires k < |ds| && ds[k] != 0 && written <= end <= |data|
    requires var block := BlockAt(fs, ds[k]);
             data[..written] + block[..Min(Min(|data| - written, fs.ss), |block|)] == data[..end]
    ensures ReadBlocks(fs, ds, |data|, k, data[..written]) ==
            if end == |data| then data[..end] else ReadBlocks(fs, ds, |data|, k + 1, data[..end])
  {
  }

  /** How far `n` more blocks get through a file of `len` bytes. */
  ghost function Stored(len: nat, written: nat, n: nat, ss: nat): (r: nat)
    requires written <= len
    ensures written <= r <= len
    decreases n
  {
    if n == 0 || written == len then written else Stored(len, Min(written + ss, len), n - 1, ss)
  }

  lemma StoredBy8(len: nat, ss: nat)
    ensures Stored(len, 0, 8, ss) == Min(len, 8 * ss)
  {
    StoredIs(len, 0, 8, ss);
  }

  lemma {:induction false} StoredIs(len: nat, written: nat, n: nat, ss: nat)
    requires written <= len
    ensures Stored(len, written, n, ss) == Min(len, written + n * ss)
    decreases n
  {
    if n > 0 && written < len {
      StoredIs(len, Min(written + ss, len), n - 1, ss);
      assert n * ss == (n - 1) * ss + ss;
    }
  }

  /** The pointers `ds[k..]` hold `data` from `written` on, one padded chunk in each block. */
  ghost predicate Holds(fs: Fs, ds: seq<u32>, k: nat, data: seq<byte>, written: nat)
    requires k <= |ds| && written <= |data|
    decreases |ds| - k
  {
    if k == |ds| || written == |data| then k < |ds| ==> ds[k] == 0 else
    var end := Min(written + fs.ss, |data|);
    ds[k] != 0 && BlockAt(fs, ds[k]) == Padded(fs.ss, data[written..end]) && Holds(fs, ds, k + 1, data, end)
  }

  lemma {:induction false} HeldIsRead(fs: Fs, ds: seq<u32>, k: nat, data: seq<byte>, written: nat)
    requires k <= |ds| && written <= |data| && fs.ss > 0 && Holds(fs, ds, k, data, written)
    ensures ReadBlocks(fs, ds, |data|, k, data[..written]) == data[..Stored(|data|, written, |ds| - k, fs.ss)]
    decreases |ds| - k
  {
    if k < |ds| && written < |data| {
      var end := Min(written + fs.ss, |data|);
      HeldStep(fs, ds, k, data, written);
      HeldIsRead(fs, ds, k + 1, data, end);
      if end == |data| { assert Stored(|data|, end, |ds| - k - 1, fs.ss) == end; }
    }
  }

  lemma HeldStep(fs: Fs, ds: seq<u32>, k: nat, data: seq<byte>, written: nat)
    requires k < |ds| && written < |data| && fs.ss > 0 && Holds(fs, ds, k, data, written)
    ensures var end := Min(written + fs.ss, |data|);
            ReadBlocks(fs, ds, |data|, k, data[..written]) ==
            if end == |data| then data[..end] else ReadBlocks(fs, ds, |data|, k + 1, data[..end])
  {
    ChunkRead(fs, data, written, BlockAt(fs, ds[k]));
    ReadStep(fs, ds, k, data, written, Min(written + fs.ss, |data|));
  }

  /** Storing into further fresh blocks does not disturb the chunk already behind `ds[k]`. */
  lemma ChunkStays(fs: Fs, ds: seq<u32>, k: nat, data: seq<byte>, written: nat)
    requires Shape(fs) && |fs.bused| > 0 && fs.bused[0]
    requires |ds| == 8 && k < 8 && written < |data| && AllocBlock(fs).GotBlock?
    ensures var r := FillBlocks(fs, ds, k, data, written); var end := Min(written + fs.ss, |data|);
            && |r.direct| == 8 && r.direct[k] != 0 && r.fs.ss == fs.ss
            && BlockAt(r.fs, r.direct[k]) == Padded(fs.ss, data[written..end])
  {
    var g := AllocBlock(fs);
    var end := Min(written + fs.ss, |data|);
    var fs2 := WriteBlock(g.fs, g.blk, data[written..end]);
    FillBlocksPrefix(fs2, ds[k := g.blk], k + 1, data, end);
    FillBlocksKeeps(fs2, ds[k := g.blk], k + 1, data, end);
  }

  lemma AfterChunk(fs: Fs, chunk: seq<byte>)
    requires Shape(fs) && |fs.bused| > 0 && fs.bused[0] && AllocBlock(fs).GotBlock?
    ensures var g := AllocBlock(fs); var fs2 := WriteBlock(g.fs, g.blk, chunk);
            Shape(fs2) && fs2.ss == fs.ss && |fs2.bused| == |fs.bused| && fs2.bused[0]
  {
  }

  lemma {:induction false} FillHolds(fs: Fs, ds: seq<u32>, k: nat, data: seq<byte>, written: nat)
    requires Shape(fs) && |fs.bused| > 0 && fs.bused[0]
    requires |ds| == 8 && k <= 8 && forall j :: k <= j < 8 ==> ds[j] == 0
    requires written <= |data| && FillBlocks(fs, ds, k, data, written).ok
    ensures var r := FillBlocks(fs, ds, k, data, written);
            |r.direct| == 8 && r.fs.ss == fs.ss && Holds(r.fs, r.direct, k, data, written)
    decreases 8 - k
  {
    if k < 8 && written < |data| {
      ChunkStays(fs, ds, k, data, written);
      var g := AllocBlock(fs);
      var end := Min(written + fs.ss, |data|);
      var fs2 := WriteBlock(g.fs, g.blk, data[written..end]);
      AfterChunk(fs, data[written..end]);
      assert FillBlocks(fs, ds, k, data, written) == FillBlocks(fs2, ds[k := g.blk], k + 1, data, end);
      FillHolds(fs2, ds[k := g.blk], k + 1, data, end);
    }
  }

  lemma FilledIsRead(fs: Fs, ds: seq<u32>, data: seq<byte>)
    requires Shape(fs) && |fs.bused| > 0 && fs.bused[0]
    requires |ds| == 8 && (forall j :: 0 <= j < 8 ==> ds[j] == 0) && FillBlocks(fs, ds, 0, data, 0).ok
    ensures var f := FillBlocks(fs, ds, 0, data, 0);
            |f.direct| == 8 && ReadBlocks(f.fs, f.direct, |data|, 0, []) == data[..Min(|data|, 8 * fs.ss)]
  {
    var f := FillBlocks(fs, ds, 0, data, 0);
    FillHolds(fs, ds, 0, data, 0);
    HeldIsRead(f.fs, f.direct, 0, data, 0);
    StoredBy8(|data|, fs.ss);
    assert data[..0] == [];
  }

  /** `read_file` after the second half of `write_file`. */
  lemma FillRead(fs: Fs, ino: nat, data: seq<byte>)
    requires Sound(fs) && |data| < 0x1_0000_0000_0000_0000
    requires InTable(ino) && IsReg(fs.inodes[ino]) && fs.inodes[ino].direct == NO_BLOCKS
    requires Fill(fs, ino, data).ok
    ensures ReadInode(Fill(fs, ino, data).fs, ino) == Some(data[..Min(|data|, 8 * fs.ss)])
  {
    var ds := fs.inodes[ino].direct;
    var f := FillBlocks(fs, ds, 0, data, 0);
    FilledIsRead(fs, ds, data);
    FillBlocksKeeps(fs, ds, 0, data, 0);
    var fs1 := Fill(fs, ino, data).fs;
    ReadBlocksSame(f.fs, fs1, f.direct, |data|, 0, []);
  }

  lemma TruncateKeeps(fs: Fs, ino: nat)
    requires Sound(fs)
    ensures var fs1 := Truncate(fs, ino);
            && Keeps(fs, fs1, ino) && fs1.iused == fs.iused
            && (InTable(ino) ==> fs1.inodes[ino].mode == fs.inodes[ino].mode)
            && (InTable(ino) && IsReg(fs.inodes[ino]) ==> fs1.inodes[ino].direct == NO_BLOCKS)
  {
    if InTable(ino) { FreeAllKeeps(fs, fs.inodes[ino].direct, 0); }
    MarkedKeeps(fs, Truncate(fs, ino), ino);
  }

  // ---- write_file ----------------------------------------------------------------------

  /** The inode a write to `path` stores into: the file there, or the inode it would create. */
  function WriteTarget(fs: Fs, path: seq<byte>): nat
    requires Shape(fs)
  {
    match LookupPath(fs, path) case Some(ino) => ino case None => AllocInode(fs).ino
  }

  /** Overwriting an existing regular file. */
  lemma OverwriteSpec(fs: Fs, path: seq<byte>, data: seq<byte>, ino: nat)
    requires Sound(fs) && |data| < 0x1_0000_0000_0000_0000
    requires LookupPath(fs, path) == Some(ino) && !(InTable(ino) && IsDir(fs.inodes[ino]))
    ensures var r := WriteFile(fs, path, data);
            && Keeps(fs, r.fs, ino) && SameEntries(fs, r.fs)
            && (r.ok && IsReg(fs.inodes[ino]) ==> ReadInode(r.fs, ino) == Some(data[..Min(|data|, 8 * fs.ss)]))
  {
    var fs1 := Truncate(fs, ino);
    TruncateKeeps(fs, ino);
    TruncateSound(fs, ino);
    FillKeeps(fs1, ino, data);
    KeepsTrans(fs, fs1, WriteFile(fs, path, data).fs, ino);
    EntriesAroundFile(fs, WriteFile(fs, path, data).fs, ino);
    if WriteFile(fs, path, data).ok && IsReg(fs.inodes[ino]) { FillRead(fs1, ino, data); }
  }

  /** A fresh inode is nobody's directory, before and after it is initialised as a file. */
  lemma FreshInodeKeeps(fs: Fs, mode: u16, nlinks: u16)
    requires Sound(fs) && AllocInode(fs).ino != 0
    ensures var a := AllocInode(fs); var fs1 := PutInode(a.fs, a.ino, NewInode(mode, nlinks));
            Sound(fs1) && Keeps(fs, fs1, a.ino) && InTable(a.ino) && fs.inodes[a.ino].mode == MODE_FREE
  {
    NewInodeSound(fs, mode, nlinks);
    var a := AllocInode(fs);
    MarkedKeeps(fs, PutInode(a.fs, a.ino, NewInode(mode, nlinks)), a.ino);
  }

  /** Adding one entry to `dir` for a file that is no directory. */
  lemma AddLeaf(fs: Fs, dir: nat, name: Name, child: u32)
    requires Sound(fs) && Storable(name, child) && DirLookup(fs, dir, name) == None
    requires InTable(child) && !IsDir(fs.inodes[child]) && DirAdd(fs, dir, name, child).ok
    ensures NewLeaf(fs, DirAdd(fs, dir, name, child).fs, dir, name, child)
  {
    var fs1 := DirAdd(fs, dir, name, child).fs;
    DirAddInserts(fs, dir, name, child);
    DirAddKeeps(fs, dir, name, child);
    forall i: nat, n: Name
      ensures DirLookup(fs1, i, n) == if i == dir && n == name then Some(child as nat) else DirLookup(fs, i, n)
    {
      if i != dir { KeptLookup(fs, fs1, dir, i, n); }
    }
    forall n: Name ensures DirLookup(fs1, child, n) == None { KeptLookup(fs, fs1, dir, child, n); }
  }

  lemma NewLeafTrans(fs: Fs, fs1: Fs, fs2: Fs, fs3: Fs, dir: nat, name: Name, child: nat)
    requires SameEntries(fs, fs1) && NewLeaf(fs1, fs2, dir, name, child) && SameEntries(fs2, fs3)
    ensures NewLeaf(fs, fs3, dir, name, child)
  {
    forall i: nat, n: Name
      ensures DirLookup(fs3, i, n) == if i == dir && n == name then Some(child) else DirLookup(fs, i, n)
    {
      assert DirLookup(fs3, i, n) == DirLookup(fs2, i, n);
      assert DirLookup(fs1, i, n) == DirLookup(fs, i, n);
    }
  }

  /** The state after a new inode has been initialised as an empty file. */
  ghost function WithNewFile(fs: Fs): (r: Fs)
    requires Sound(fs) && AllocInode(fs).ino != 0
    ensures Sound(r)
  {
    NewInodeSound(fs, MODE_REG, 1);
    PutInode(AllocInode(fs).fs, AllocInode(fs).ino, NewInode(MODE_REG, 1))
  }

  /** A path that does not resolve has a last name, which its parent does not have. */
  lemma AbsentName(fs: Fs, path: seq<byte>)
    requires Shape(fs) && LookupPath(fs, path) == None
    ensures var s := SplitPath(path); var p := LookupPath(fs, s.parent);
            |s.name| > 0 && (p.Some? ==> DirLookup(fs, p.value, s.name) == None)
  {
    assert Components(path) != [];
    LookupThroughParent(fs, path);
    SplitIsLastComponent(path);
  }

  /** Entering the new file in `dir`. */
  lemma EnterNewFile(fs: Fs, dir: nat, name: Name)
    requires Sound(fs) && AllocInode(fs).ino != 0 && 0 < |name| && 0 !in name && DirLookup(fs, dir, name) == None
    requires DirAdd(WithNewFile(fs), dir, name, AllocInode(fs).ino).ok
    ensures var ino := AllocInode(fs).ino; var fs2 := DirAdd(WithNewFile(fs), dir, name, ino).fs;
            && InTable(ino) && Sound(fs2) && fs2.ss == fs.ss && NewLeaf(fs, fs2, dir, name, ino)
            && IsReg(fs2.inodes[ino]) && fs2.inodes[ino].direct == NO_BLOCKS
  {
    var ino := AllocInode(fs).ino;
    var fs1 := WithNewFile(fs);
    FreshInodeKeeps(fs, MODE_REG, 1);
    EntriesAroundFile(fs, fs1, ino);
    assert DirLookup(fs1, dir, name) == None;
    AddLeaf(fs1, dir, name, ino);
    DirAddSound(fs1, dir, name, ino);
    DirAddKeeps(fs1, dir, name, ino);
    var fs2 := DirAdd(fs1, dir, name, ino).fs;
    SameEntriesRefl(fs2);
    NewLeafTrans(fs, fs1, fs2, fs2, dir, name, ino);
  }

  /** Creating a file: one new entry, everything else is kept. */
  lemma CreateSpec(fs: Fs, path: seq<byte>)
    requires Sound(fs) && LookupPath(fs, path) == None && 0 !in SplitPath(path).name
    requires CreateFile(fs, path).ok
    ensures var c := CreateFile(fs, path); var s := SplitPath(path); var parent := LookupPath(fs, s.parent);
            && parent.Some? && c.ino == WriteTarget(fs, path) && InTable(c.ino)
            && Sound(c.fs) && c.fs.ss == fs.ss && NewLeaf(fs, c.fs, parent.value, s.name, c.ino)
            && IsReg(c.fs.inodes[c.ino]) && c.fs.inodes[c.ino].direct == NO_BLOCKS
  {
    AbsentName(fs, path);
    var s := SplitPath(path);
    EnterNewFile(fs, LookupPath(fs, s.parent).value, s.name);
  }

  /** Reads of all inodes but `x` and the directories are kept by a creation. */
  lemma CreateReads(fs: Fs, path: seq<byte>, i: nat)
    requires Sound(fs) && LookupPath(fs, path) == None && i != WriteTarget(fs, path)
    ensures var c := CreateFile(fs, path); ReadInode(c.fs, i) == ReadInode(fs, i)
  {
    var s := SplitPath(path);
    var p := LookupPath(fs, s.parent);
    var a := AllocInode(fs);
    if p.Some? && a.ino != 0 {
      FreshInodeKeeps(fs, MODE_REG, 1);
      var fs1 := WithNewFile(fs);
      KeptRead(fs, fs1, a.ino, i);
      DirAddKeeps(fs1, p.value, s.name, a.ino);
      var fs2 := DirAdd(fs1, p.value, s.name, a.ino).fs;
      if i != p.value { KeptRead(fs1, fs2, p.value, i); }
      else if fs2 != fs1 { NotAFile(fs1, i, s.name, a.ino); }
    }
  }

  /** A directory is no regular file, whatever is added to it. */
  lemma NotAFile(fs: Fs, dir: nat, name: Name, child: u32)
    requires Sound(fs)
    ensures InTable(dir) && IsDir(fs.inodes[dir]) ==> ReadInode(fs, dir) == None
    ensures InTable(dir) && IsDir(fs.inodes[dir]) ==> ReadInode(DirAdd(fs, dir, name, child).fs, dir) == None
    ensures !(InTable(dir) && IsDir(fs.inodes[dir])) ==> DirAdd(fs, dir, name, child).fs == fs
  {
  }

  /** What one sees through `q` after writing `data` to `path`. */
  ghost predicate SeenThrough(fs: Fs, fs1: Fs, path: seq<byte>, data: seq<byte>, q: seq<byte>)
    requires Shape(fs) && Shape(fs1)
  {
    && (LookupPath(fs, q).Some? ==> LookupPath(fs1, q) == LookupPath(fs, q))
    && ReadFile(fs1, q) == (if LookupPath(fs1, q) == LookupPath(fs1, path)
                            then Some(data[..Min(|data|, 8 * fs.ss)]) else ReadFile(fs, q))
  }

  lemma OverwriteSeen(fs: Fs, path: seq<byte>, data: seq<byte>, ino: nat, q: seq<byte>)
    requires Sound(fs) && |data| < 0x1_0000_0000_0000_0000
    requires LookupPath(fs, path) == Some(ino) && InTable(ino) && IsReg(fs.inodes[ino])
    requires WriteFile(fs, path, data).ok
    ensures var fs1 := WriteFile(fs, path, data).fs;
            LookupPath(fs1, path) == Some(ino) && SeenThrough(fs, fs1, path, data, q)
  {
    var fs1 := WriteFile(fs, path, data).fs;
    OverwriteSpec(fs, path, data, ino);
    SameWalk(fs, fs1, INODE_ROOT, Components(path));
    SameWalk(fs, fs1, INODE_ROOT, Components(q));
    var t := LookupPath(fs, q);
    if t.Some? && t.value != ino { KeptRead(fs, fs1, ino, t.value); }
  }

  /** After a successful creation the new entry is the only one, also once the data is stored. */
  lemma CreateAndFill(fs: Fs, path: seq<byte>, data: seq<byte>)
    requires Sound(fs) && |data| < 0x1_0000_0000_0000_0000 && 0 !in SplitPath(path).name
    requires LookupPath(fs, path) == None && WriteFile(fs, path, data).ok
    ensures var fs1 := WriteFile(fs, path, data).fs; var c := CreateFile(fs, path); var s := SplitPath(path);
            var dir := LookupPath(fs, s.parent);
            && dir.Some? && NewLeaf(fs, fs1, dir.value, s.name, c.ino) && c.ino == WriteTarget(fs, path)
            && ReadInode(fs1, c.ino) == Some(data[..Min(|data|, 8 * fs.ss)])
            && Keeps(c.fs, fs1, c.ino)
  {
    var c := CreateFile(fs, path);
    var s := SplitPath(path);
    CreateSpec(fs, path);
    FillNew(fs, c.fs, LookupPath(fs, s.parent).value, s.name, c.ino, data);
  }

  /** Storing data into the new file does not disturb the new entry. */
  lemma FillNew(fs: Fs, fs1: Fs, dir: nat, name: Name, ino: nat, data: seq<byte>)
    requires Sound(fs1) && |data| < 0x1_0000_0000_0000_0000 && InTable(ino)
    requires NewLeaf(fs, fs1, dir, name, ino) && IsReg(fs1.inodes[ino]) && fs1.inodes[ino].direct == NO_BLOCKS
    ensures var r := Fill(fs1, ino, data);
            && NewLeaf(fs, r.fs, dir, name, ino) && Keeps(fs1, r.fs, ino)
            && (r.ok ==> ReadInode(r.fs, ino) == Some(data[..Min(|data|, 8 * fs1.ss)]))
  {
    var r := Fill(fs1, ino, data);
    FillKeeps(fs1, ino, data);
    if r.ok { FillRead(fs1, ino, data); }
    EntriesAroundFile(fs1, r.fs, ino);
    SameEntriesRefl(fs);
    NewLeafTrans(fs, fs, fs1, r.fs, dir, name, ino);
  }

  lemma NewLeafSeen(fs: Fs, fs1: Fs, path: seq<byte>, ino: nat, q: seq<byte>)
    requires Shape(fs) && Shape(fs1) && LookupPath(fs, path) == None
    requires var s := SplitPath(path); var dir := LookupPath(fs, s.parent);
             dir.Some? && NewLeaf(fs, fs1, dir.value, s.name, ino)
    ensures LookupPath(fs1, path) == Some(ino)
    ensures LookupPath(fs1, q) == LookupPath(fs, q) || (LookupPath(fs, q) == None && LookupPath(fs1, q) == Some(ino))
  {
    var s := SplitPath(path);
    var dir := LookupPath(fs, s.parent).value;
    WalkNewLeaf(fs, fs1, dir, s.name, ino, INODE_ROOT, Components(path));
    WalkNewLeaf(fs, fs1, dir, s.name, ino, INODE_ROOT, Components(q));
    SplitIsLastComponent(path);
    var comps := Components(path);
    assert comps[..|comps| - 1] == Components(s.parent);
  }

  lemma CreateSeen(fs: Fs, path: seq<byte>, data: seq<byte>, q: seq<byte>)
    requires Sound(fs) && |data| < 0x1_0000_0000_0000_0000 && 0 !in SplitPath(path).name
    requires LookupPath(fs, path) == None && WriteFile(fs, path, data).ok
    ensures var fs1 := WriteFile(fs, path, data).fs;
            LookupPath(fs1, path) == Some(WriteTarget(fs, path)) && SeenThrough(fs, fs1, path, data, q)
  {
    var fs1 := WriteFile(fs, path, data).fs;
    var c := CreateFile(fs, path);
    CreateAndFill(fs, path, data);
    NewLeafSeen(fs, fs1, path, c.ino, q);
    var t := LookupPath(fs, q);
    if t.Some? && t.value != c.ino {
      CreateReads(fs, path, t.value);
      KeptRead(c.fs, fs1, c.ino, t.value);
    }
  }

  /** Write, then read: after a successful write to a path that names no directory, the file
      reads as the first min(len, 8 * sector size) bytes of the data, and through every path
      of the filesystem one sees what one saw before, except through the names of that file. */
  lemma WriteThenRead(fs: Fs, path: seq<byte>, data: seq<byte>, q: seq<byte>)
    requires Sound(fs) && |data| < 0x1_0000_0000_0000_0000 && 0 !in SplitPath(path).name
    requires var t := LookupPath(fs, path); t.Some? ==> InTable(t.value) && IsReg(fs.inodes[t.value])
    requires WriteFile(fs, path, data).ok
    ensures var fs1 := WriteFile(fs, path, data).fs;
            && LookupPath(fs1, path) == Some(WriteTarget(fs, path))
            && ReadFile(fs1, path) == Some(data[..Min(|data|, 8 * fs.ss)])
            && (LookupPath(fs, q).Some? ==> LookupPath(fs1, q) == LookupPath(fs, q))
            && ReadFile(fs1, q) == (if LookupPath(fs1, q) == LookupPath(fs1, path)
                                    then Some(data[..Min(|data|, 8 * fs.ss)]) else ReadFile(fs, q))
  {
    match LookupPath(fs, path)
    case Some(ino) =>
      OverwriteSeen(fs, path, data, ino, path);
      OverwriteSeen(fs, path, data, ino, q);
    case None =>
      CreateSeen(fs, path, data, path);
      CreateSeen(fs, path, data, q);
  }

  lemma SameEntriesRefl(fs: Fs)
    requires |fs.inodes| == MAX_INODES
    ensures SameEntries(fs, fs)
  {
  }

  /** A creation that fails adds no entry. */
  lemma FailedCreateEntries(fs: Fs, path: seq<byte>)
    requires Sound(fs) && LookupPath(fs, path) == None && !CreateFile(fs, path).ok
    ensures SameEntries(fs, CreateFile(fs, path).fs)
  {
    var p := LookupPath(fs, SplitPath(path).parent);
    SameEntriesRefl(fs);
    if p.Some? && AllocInode(fs).ino != 0 {
      FreshInodeKeeps(fs, MODE_REG, 1);
      EntriesAroundFile(fs, WithNewFile(fs), AllocInode(fs).ino);
    }
  }

  /** Whether or not a write succeeds: what resolved to another inode still does and reads the same. */
  lemma WriteFrame(fs: Fs, path: seq<byte>, data: seq<byte>, q: seq<byte>)
    requires Sound(fs) && |data| < 0x1_0000_0000_0000_0000 && 0 !in SplitPath(path).name
    requires var t := LookupPath(fs, path); t.Some? ==> !(InTable(t.value) && IsDir(fs.inodes[t.value]))
    requires LookupPath(fs, q).Some? && LookupPath(fs, q).value != WriteTarget(fs, path)
    ensures var fs1 := WriteFile(fs, path, data).fs;
            LookupPath(fs1, q) == LookupPath(fs, q) && ReadFile(fs1, q) == ReadFile(fs, q)
  {
    var fs1 := WriteFile(fs, path, data).fs;
    var i := LookupPath(fs, q).value;
    match LookupPath(fs, path)
    case Some(ino) =>
      OverwriteSpec(fs, path, data, ino);
      SameWalk(fs, fs1, INODE_ROOT, Components(q));
      KeptRead(fs, fs1, ino, i);
    case None =>
      var c := CreateFile(fs, path);
      CreateReads(fs, path, i);
      if c.ok {
        var s := SplitPath(path);
        CreateSpec(fs, path);
        FillNew(fs, c.fs, LookupPath(fs, s.parent).value, s.name, c.ino, data);
        NewLeafSeen(fs, fs1, path, c.ino, q);
        KeptRead(c.fs, fs1, c.ino, i);
      } else {
        FailedCreateEntries(fs, path);
        SameWalk(fs, fs1, INODE_ROOT, Components(q));
      }
  }
}
