/** Block ownership: what every operation of AeternaFS keeps, for any arguments,
    whether it succeeds or fails for lack of space. */
module AeternaSound {
  import opened Bytes
  import opened Paths
  import opened AeternaModel

  function Ptr(fs: Fs, i: nat, k: nat): nat
    requires Shape(fs) && InTable(i) && k < 8
  {
    fs.inodes[i].direct[k]
  }

  /** The pointer `k` of slot `i`, if it is used, names a marked block in range. */
  ghost predicate PtrOk(fs: Fs, except: nat, i: nat, k: nat)
    requires Shape(fs)
  {
    InTable(i) && i != except && k < 8 && Ptr(fs, i, k) != 0 ==> Ptr(fs, i, k) < |fs.bused| && fs.bused[Ptr(fs, i, k)]
  }

  /** Two used pointers that name the same block are the same pointer. */
  ghost predicate PtrApart(fs: Fs, except: nat, i: nat, k: nat, j: nat, l: nat)
    requires Shape(fs)
  {
    (InTable(i) && i != except && k < 8 && InTable(j) && j != except && l < 8
     && Ptr(fs, i, k) != 0 && Ptr(fs, i, k) == Ptr(fs, j, l)) ==> i == j && k == l
  }

  /** Non-zero pointers of all inode slots but `except` are in range, marked used and pairwise distinct. */
  ghost predicate Owned(fs: Fs, except: nat)
    requires Shape(fs)
  {
    && (forall i: nat, k: nat :: PtrOk(fs, except, i, k))
    && (forall i: nat, k: nat, j: nat, l: nat :: PtrApart(fs, except, i, k, j, l))
  }

  /** Slot `i` does not name block `blk` through pointer `l`. */
  ghost predicate NotBehind(fs: Fs, ino: nat, blk: nat, i: nat, l: nat)
    requires Shape(fs)
  {
    InTable(i) && i != ino && l < 8 ==> Ptr(fs, i, l) != blk
  }

  /** `ds` could become the pointers of inode `ino` without breaking ownership. */
  ghost predicate Attachable(fs: Fs, ino: nat, ds: seq<u32>)
    requires Shape(fs)
  {
    && |ds| == 8
    && (forall k :: 0 <= k < 8 && ds[k] != 0 ==> ds[k] < |fs.bused| && fs.bused[ds[k]])
    && (forall k, l :: 0 <= k < l < 8 && ds[k] != 0 ==> ds[k] != ds[l])
    && (forall k, i: nat, l: nat :: 0 <= k < 8 && ds[k] != 0 ==> NotBehind(fs, ino, ds[k], i, l))
  }

  /** The used pointers come first. */
  ghost predicate Contiguous(ds: seq<u32>) {
    forall k, l :: 0 <= k < l < |ds| && ds[k] == 0 ==> ds[l] == 0
  }

  /** The invariant of every reachable AeternaFS. */
  ghost predicate Sound(fs: Fs) {
    && Shape(fs)
    && |fs.bused| > 0 && fs.bused[0]
    && Owned(fs, 0)
    && (forall i :: InTable(i) ==> Contiguous(fs.inodes[i].direct))
    && (forall i :: InTable(i) && !fs.iused[i] ==> fs.inodes[i].mode == MODE_FREE)
  }

  /** A used pointer of a sound filesystem names a marked block. */
  lemma Owns(fs: Fs, i: nat, k: nat)
    requires Sound(fs) && InTable(i) && k < 8 && fs.inodes[i].direct[k] != 0
    ensures fs.inodes[i].direct[k] < |fs.blocks| && fs.bused[fs.inodes[i].direct[k]]
  {
    assert PtrOk(fs, 0, i, k);
  }

  /** Different pointers of a sound filesystem name different blocks. */
  lemma Apart(fs: Fs, i: nat, k: nat, j: nat, l: nat)
    requires Sound(fs) && InTable(i) && k < 8 && InTable(j) && l < 8 && (i, k) != (j, l)
    requires fs.inodes[i].direct[k] != 0
    ensures fs.inodes[i].direct[k] != fs.inodes[j].direct[l]
  {
    assert PtrApart(fs, 0, i, k, j, l);
    assert Ptr(fs, i, k) == fs.inodes[i].direct[k];
  }

  // ---- One table update at a time ------------------------------------------------

  lemma FreshBlock(fs: Fs, ino: nat, ds: seq<u32>, k: nat)
    requires Shape(fs) && |fs.bused| > 0 && fs.bused[0]
    requires Owned(fs, ino) && Attachable(fs, ino, ds) && k < 8
    requires AllocBlock(fs).GotBlock?
    ensures var g := AllocBlock(fs);
            && g.blk != 0 && !fs.bused[g.blk] && Shape(g.fs) && g.fs.bused[0]
            && Owned(g.fs, ino) && Attachable(g.fs, ino, ds[k := g.blk])
  {
    var g := AllocBlock(fs);
    OwnedByTables(fs, g.fs, ino);
    AttachableByTables(fs, g.fs, ino, ds);
    forall i: nat, l: nat ensures NotBehind(g.fs, ino, g.blk, i, l) {
      assert PtrOk(fs, ino, i, l);
    }
  }

  lemma Attach(fs: Fs, ino: nat, inode: Inode)
    requires Shape(fs) && InTable(ino)
    requires Owned(fs, ino) && Attachable(fs, ino, inode.direct)
    ensures Shape(PutInode(fs, ino, inode)) && Owned(PutInode(fs, ino, inode), 0)
  {
    var fs1 := PutInode(fs, ino, inode);
    forall i: nat, k: nat ensures PtrOk(fs1, 0, i, k) {
      assert PtrOk(fs, ino, i, k);
    }
    forall i: nat, k: nat, j: nat, l: nat ensures PtrApart(fs1, 0, i, k, j, l) {
      assert PtrApart(fs, ino, i, k, j, l);
      if i == ino && k < 8 && inode.direct[k] != 0 { assert NotBehind(fs, ino, inode.direct[k], j, l); }
      if j == ino && l < 8 && inode.direct[l] != 0 { assert NotBehind(fs, ino, inode.direct[l], i, k); }
    }
  }

  lemma Detach(fs: Fs, ino: nat)
    requires Shape(fs) && Owned(fs, 0) && InTable(ino)
    ensures Owned(fs, ino) && Attachable(fs, ino, fs.inodes[ino].direct)
    ensures Attachable(fs, ino, NO_BLOCKS)
  {
    var ds := fs.inodes[ino].direct;
    forall i: nat, k: nat ensures PtrOk(fs, ino, i, k) { assert PtrOk(fs, 0, i, k); }
    forall i: nat, k: nat, j: nat, l: nat ensures PtrApart(fs, ino, i, k, j, l) { assert PtrApart(fs, 0, i, k, j, l); }
    forall k | 0 <= k < 8 && ds[k] != 0 ensures ds[k] < |fs.bused| && fs.bused[ds[k]] { assert PtrOk(fs, 0, ino, k); }
    forall k, l | 0 <= k < l < 8 && ds[k] != 0 ensures ds[k] != ds[l] { assert PtrApart(fs, 0, ino, k, ino, l); }
    forall k, i: nat, l: nat | 0 <= k < 8 && ds[k] != 0 ensures NotBehind(fs, ino, ds[k], i, l) {
      assert PtrApart(fs, 0, ino, k, i, l);
    }
  }

  /** Changes that leave pointers alone and clear no bit keep ownership. */
  lemma OwnedByTables(fs: Fs, fs1: Fs, except: nat)
    requires Shape(fs) && Shape(fs1) && Owned(fs, except)
    requires |fs1.bused| == |fs.bused| && forall b :: 0 <= b < |fs.bused| && fs.bused[b] ==> fs1.bused[b]
    requires forall i :: InTable(i) ==> fs1.inodes[i].direct == fs.inodes[i].direct
    ensures Owned(fs1, except)
  {
    forall i: nat, k: nat ensures PtrOk(fs1, except, i, k) { assert PtrOk(fs, except, i, k); }
    forall i: nat, k: nat, j: nat, l: nat ensures PtrApart(fs1, except, i, k, j, l) {
      assert PtrApart(fs, except, i, k, j, l);
    }
  }

  lemma AttachableByTables(fs: Fs, fs1: Fs, ino: nat, ds: seq<u32>)
    requires Shape(fs) && Shape(fs1) && Attachable(fs, ino, ds)
    requires |fs1.bused| == |fs.bused| && forall b :: 0 <= b < |fs.bused| && fs.bused[b] ==> fs1.bused[b]
    requires forall i :: InTable(i) ==> fs1.inodes[i].direct == fs.inodes[i].direct
    ensures Attachable(fs1, ino, ds)
  {
    forall k, i: nat, l: nat | 0 <= k < 8 && ds[k] != 0 ensures NotBehind(fs1, ino, ds[k], i, l) {
      assert NotBehind(fs, ino, ds[k], i, l);
    }
  }

  /** Freeing the blocks of one inode leaves the bit of another inode's block. */
  lemma OthersStayMarked(fs: Fs, ino: nat, i: nat, l: nat)
    requires Shape(fs) && Owned(fs, 0) && InTable(ino)
    requires InTable(i) && i != ino && l < 8 && Ptr(fs, i, l) != 0
    ensures var fs1 := FreeAll(fs, fs.inodes[ino].direct, 0);
            |fs1.bused| == |fs.bused| && Ptr(fs, i, l) < |fs.bused| && fs1.bused[Ptr(fs, i, l)]
  {
    var ds := fs.inodes[ino].direct;
    assert PtrOk(fs, 0, i, l);
    forall k | 0 <= k < 8 ensures ds[k] != Ptr(fs, i, l) { assert PtrApart(fs, 0, i, l, ino, k); }
    FreeAllBit(fs, ds, 0, Ptr(fs, i, l));
  }

  /** Freeing the blocks of one inode does not touch anybody else's. */
  lemma FreeAllOwned(fs: Fs, ino: nat)
    requires Sound(fs) && InTable(ino)
    ensures var fs1 := FreeAll(fs, fs.inodes[ino].direct, 0);
            && Shape(fs1) && |fs1.bused| == |fs.bused| && fs1.bused[0] && Owned(fs1, ino)
            && Attachable(fs1, ino, NO_BLOCKS) && fs1 == fs.(bused := fs1.bused)
  {
    var fs1 := FreeAll(fs, fs.inodes[ino].direct, 0);
    FreeAllKeeps(fs, fs.inodes[ino].direct, 0);
    forall i: nat, k: nat ensures PtrOk(fs1, ino, i, k) {
      if InTable(i) && i != ino && k < 8 && Ptr(fs, i, k) != 0 { OthersStayMarked(fs, ino, i, k); }
    }
    OwnedBySomeBits(fs, fs1, ino);
  }

  /** Only bits change, and every other inode's pointers stay marked. */
  lemma OwnedBySomeBits(fs: Fs, fs1: Fs, ino: nat)
    requires Shape(fs) && Shape(fs1) && Owned(fs, 0) && fs1 == fs.(bused := fs1.bused)
    requires forall i: nat, k: nat :: PtrOk(fs1, ino, i, k)
    ensures Owned(fs1, ino) && Attachable(fs1, ino, NO_BLOCKS)
  {
    forall i: nat, k: nat, j: nat, l: nat ensures PtrApart(fs1, ino, i, k, j, l) {
      assert PtrApart(fs, 0, i, k, j, l);
    }
  }

  // ---- The building blocks ---------------------------------------------------------

  lemma TruncateSound(fs: Fs, ino: nat)
    requires Sound(fs)
    ensures Sound(Truncate(fs, ino))
  {
    if InTable(ino) && IsReg(fs.inodes[ino]) {
      FreeAllOwned(fs, ino);
      var inode := fs.inodes[ino];
      Attach(FreeAll(fs, inode.direct, 0), ino, inode.(direct := NO_BLOCKS, size := 0));
    }
  }

  /** Between two chunks of `write_file`: `ds` are the pointers gathered so far. */
  ghost predicate Filling(fs: Fs, ino: nat, ds: seq<u32>, k: nat) {
    && Shape(fs) && |fs.bused| > 0 && fs.bused[0]
    && Owned(fs, ino) && Attachable(fs, ino, ds) && Contiguous(ds)
    && k <= 8 && forall j :: 0 <= j < k ==> ds[j] != 0
  }

  lemma FillStep(fs: Fs, ino: nat, ds: seq<u32>, k: nat, chunk: seq<byte>)
    requires Filling(fs, ino, ds, k) && k < 8 && AllocBlock(fs).GotBlock?
    ensures var g := AllocBlock(fs);
            Filling(WriteBlock(g.fs, g.blk, chunk), ino, ds[k := g.blk], k + 1)
  {
    FreshBlock(fs, ino, ds, k);
    var g := AllocBlock(fs);
    var fs2 := WriteBlock(g.fs, g.blk, chunk);
    OwnedByTables(g.fs, fs2, ino);
    AttachableByTables(g.fs, fs2, ino, ds[k := g.blk]);
  }

  lemma {:induction false} FillBlocksOwned(fs: Fs, ino: nat, ds: seq<u32>, k: nat, data: seq<byte>, written: nat)
    requires Filling(fs, ino, ds, k) && written <= |data|
    ensures var r := FillBlocks(fs, ds, k, data, written);
            Filling(r.fs, ino, r.direct, k) && |r.fs.bused| == |fs.bused|
    decreases 8 - k
  {
    if k < 8 && written < |data| && AllocBlock(fs).GotBlock? {
      var g := AllocBlock(fs);
      var end := Min(written + fs.ss, |data|);
      FillStep(fs, ino, ds, k, data[written..end]);
      FillBlocksOwned(WriteBlock(g.fs, g.blk, data[written..end]), ino, ds[k := g.blk], k + 1, data, end);
    }
  }

  lemma FillSound(fs: Fs, ino: nat, data: seq<byte>)
    requires Sound(fs) && |data| < 0x1_0000_0000_0000_0000
    ensures Sound(Fill(fs, ino, data).fs)
  {
    if InTable(ino) {
      var ds := fs.inodes[ino].direct;
      Detach(fs, ino);
      FillBlocksOwned(fs, ino, ds, 0, data, 0);
      FillBlocksKeeps(fs, ds, 0, data, 0);
      var f := FillBlocks(fs, ds, 0, data, 0);
      if f.ok {
        Attach(f.fs, ino, fs.inodes[ino].(direct := f.direct, size := |data|));
      } else {
        OwnedByTables(fs, f.fs, 0);
      }
    }
  }

  /** Growing a directory by a fresh block behind its first unused pointer. */
  lemma GrowSound(fs: Fs, dir: nat, k: nat, size: u64)
    requires Sound(fs) && InTable(dir) && k == FirstZero(fs.inodes[dir].direct, 0) && k < 8
    requires AllocBlock(fs).GotBlock? && IsDir(fs.inodes[dir])
    ensures var g := AllocBlock(fs); var inode := fs.inodes[dir];
            g.blk < 0x1_0000_0000 && Sound(PutInode(g.fs, dir, inode.(direct := inode.direct[k := g.blk], size := size)))
  {
    var inode := fs.inodes[dir];
    Detach(fs, dir);
    FreshBlock(fs, dir, inode.direct, k);
    var g := AllocBlock(fs);
    Attach(g.fs, dir, inode.(direct := inode.direct[k := g.blk], size := size));
  }

  /** Rewriting the contents of a block keeps the invariant. */
  lemma WriteBlockSound(fs: Fs, blk: nat, data: seq<byte>)
    requires Sound(fs)
    ensures Sound(WriteBlock(fs, blk, data))
  {
    OwnedByTables(fs, WriteBlock(fs, blk, data), 0);
  }

  lemma DirAddSound(fs: Fs, dir: nat, name: Name, child: u32)
    requires Sound(fs)
    ensures Sound(DirAdd(fs, dir, name, child).fs)
  {
    if DirAdd(fs, dir, name, child).ok {
      var inode := fs.inodes[dir];
      DirFindUnusedBounds(fs, inode.direct, 0);
      match DirFindUnused(fs, inode.direct, 0)
      case At(k, slot) =>
        var blk := inode.direct[k];
        WriteBlockSound(fs, blk, PutEntry(BlockAt(fs, blk), slot, child, name));
      case Nowhere =>
        var k := FirstZero(inode.direct, 0);
        var size := (inode.size + fs.ss) % 0x1_0000_0000_0000_0000;
        GrowSound(fs, dir, k, size);
        var g := AllocBlock(fs);
        var grown := inode.(direct := inode.direct[k := g.blk], size := size);
        WriteBlockSound(PutInode(g.fs, dir, grown), g.blk, PutEntry(Zeros(fs.ss), 0, child, name));
    }
  }

  lemma DirRemoveSound(fs: Fs, dir: nat, name: Name)
    requires Sound(fs)
    ensures Sound(DirRemove(fs, dir, name).fs)
  {
    DirRemoveShape(fs, dir, name);
    OwnedByTables(fs, DirRemove(fs, dir, name).fs, 0);
  }

  /** A fresh inode, initialised as `inode`. */
  lemma NewInodeSound(fs: Fs, mode: u16, nlinks: u16)
    requires Sound(fs) && AllocInode(fs).ino != 0
    ensures var a := AllocInode(fs);
            InTable(a.ino) && !fs.iused[a.ino] && Sound(PutInode(a.fs, a.ino, NewInode(mode, nlinks)))
  {
    var a := AllocInode(fs);
    OwnedByTables(fs, a.fs, 0);
    Detach(a.fs, a.ino);
    Attach(a.fs, a.ino, NewInode(mode, nlinks));
  }

  lemma CreateFileSound(fs: Fs, path: seq<byte>)
    requires Sound(fs)
    ensures Sound(CreateFile(fs, path).fs)
  {
    var s := SplitPath(path);
    var p := LookupPath(fs, s.parent);
    if p.Some? && AllocInode(fs).ino != 0 {
      var a := AllocInode(fs);
      NewInodeSound(fs, MODE_REG, 1);
      DirAddSound(PutInode(a.fs, a.ino, NewInode(MODE_REG, 1)), p.value, s.name, a.ino);
    }
  }

  lemma WriteFileSound(fs: Fs, path: seq<byte>, data: seq<byte>)
    requires Sound(fs) && |data| < 0x1_0000_0000_0000_0000
    ensures Sound(WriteFile(fs, path, data).fs)
  {
    match LookupPath(fs, path)
    case Some(ino) =>
      TruncateSound(fs, ino);
      FillSound(Truncate(fs, ino), ino, data);
    case None =>
      CreateFileSound(fs, path);
      var c := CreateFile(fs, path);
      if c.ok { FillSound(c.fs, c.ino, data); }
  }

  lemma MkdirInSound(fs: Fs, path: seq<byte>, parent: nat)
    requires Sound(fs) && parent < 0x1_0000_0000
    ensures Sound(MkdirIn(fs, path, parent).fs)
  {
    if LookupPath(fs, path).None? && AllocInode(fs).ino != 0 {
      var a := AllocInode(fs);
      NewInodeSound(fs, MODE_DIR, 2);
      var fs1 := PutInode(a.fs, a.ino, NewInode(MODE_DIR, 2));
      DirAddSound(fs1, a.ino, [DOT], a.ino);
      var fs2 := DirAdd(fs1, a.ino, [DOT], a.ino).fs;
      DirAddSound(fs2, a.ino, [DOT, DOT], parent);
      var fs3 := DirAdd(fs2, a.ino, [DOT, DOT], parent).fs;
      DirAddSound(fs3, parent, SplitPath(path).name, a.ino);
    }
  }

  lemma {:induction false} MkdirSound(fs: Fs, path: seq<byte>)
    requires Sound(fs)
    ensures Sound(Mkdir(fs, path).fs)
    decreases |Components(path)|
  {
    var s := SplitPath(path);
    SplitIsLastComponent(path);
    if s.name != [] {
      WalkRange(fs, INODE_ROOT, Components(s.parent));
      match LookupPath(fs, s.parent)
      case Some(parent) => MkdirInSound(fs, path, parent);
      case None =>
        MkdirSound(fs, s.parent);
        var m := Mkdir(fs, s.parent);
        if m.ok && LookupPath(m.fs, s.parent).Some? {
          WalkRange(m.fs, INODE_ROOT, Components(s.parent));
          MkdirInSound(m.fs, path, LookupPath(m.fs, s.parent).value);
        }
    }
  }

  lemma ReleaseSound(fs: Fs, ino: nat)
    requires Sound(fs) && InTable(ino)
    ensures Sound(Release(fs, ino))
  {
    var inode := fs.inodes[ino];
    FreeAllOwned(fs, ino);
    var fs1 := FreeAll(fs, inode.direct, 0);
    var fs2 := PutInode(fs1, ino, inode.(direct := NO_BLOCKS, mode := MODE_FREE));
    Attach(fs1, ino, inode.(direct := NO_BLOCKS, mode := MODE_FREE));
    OwnedByTables(fs2, Release(fs, ino), 0);
  }

  lemma RemoveSound(fs: Fs, path: seq<byte>)
    requires Sound(fs)
    ensures Sound(Remove(fs, path).fs)
  {
    var t := LookupPath(fs, path);
    if t.Some? && InTable(t.value) {
      ReleaseSound(fs, t.value);
      var fs1 := Release(fs, t.value);
      var s := SplitPath(path);
      if LookupPath(fs1, s.parent).Some? { DirRemoveSound(fs1, LookupPath(fs1, s.parent).value, s.name); }
    }
  }

  /** Every operation, with any arguments and any outcome, keeps the invariant. */
  lemma ApplySound(fs: Fs, op: Op)
    requires Sound(fs) && Fits(fs, op)
    ensures Sound(Apply(fs, op).fs)
  {
    match op
    case WriteOp(path, data) => WriteFileSound(fs, path, data);
    case AppendOp(path, data) => WriteFileSound(fs, path, OldContents(fs, path) + data);
    case WriteAtOp(path, offset, data) => WriteFileSound(fs, path, Overlay(OldContents(fs, path), offset, data));
    case TouchOp(path) => WriteFileSound(fs, path, []);
    case MkdirOp(path) => MkdirSound(fs, path);
    case RemoveOp(path) => RemoveSound(fs, path);
  }

  lemma FormattedSound(ss: nat, blocks: seq<seq<byte>>)
    requires 64 <= ss < 0x1_0000_0000 && ss % 32 == 0 && 0 < |blocks| <= MAX_BLOCKS
    requires forall b :: 0 <= b < |blocks| ==> |blocks[b]| == ss
    ensures Sound(Formatted(ss, blocks))
  {
    var fs := Formatted(ss, blocks);
    assert forall i: nat, l: nat :: InTable(i) && l < 8 ==> Ptr(fs, i, l) == 0;
    assert forall i: nat, k: nat :: PtrOk(fs, 0, i, k);
    assert forall i: nat, k: nat, j: nat, l: nat :: PtrApart(fs, 0, i, k, j, l);
  }

  // ---- Whole runs --------------------------------------------------------------------

  /** `trace` is a run: each state comes from the one before by one operation. */
  ghost predicate IsRun(trace: seq<Fs>, ops: seq<Op>) {
    && |trace| == |ops| + 1
    && (forall n :: 0 <= n < |trace| ==> Shape(trace[n]))
    && (forall n :: 0 <= n < |ops| ==> Fits(trace[n], ops[n]) && trace[n + 1] == Apply(trace[n], ops[n]).fs)
  }

  /** In every state of every run from a formatted disk: live pointers are in range
      and marked, no block is pointed to twice, block 0 stays marked, and an
      allocation hands out neither block 0 nor a block somebody owns. */
  lemma {:induction false} OwnershipOverRuns(trace: seq<Fs>, ops: seq<Op>, n: nat)
    requires IsRun(trace, ops) && n < |trace| && Sound(trace[0])
    ensures Sound(trace[n])
    ensures AllocBlock(trace[n]).GotBlock? ==>
              var blk := AllocBlock(trace[n]).blk;
              blk != 0 && forall i: nat, k: nat :: InTable(i) && k < 8 ==> Ptr(trace[n], i, k) != blk
  {
    if n > 0 {
      OwnershipOverRuns(trace, ops, n - 1);
      ApplySound(trace[n - 1], ops[n - 1]);
      assert trace[n - 1 + 1] == Apply(trace[n - 1], ops[n - 1]).fs;
    }
    forall i: nat, k: nat | InTable(i) && k < 8 && AllocBlock(trace[n]).GotBlock?
      ensures Ptr(trace[n], i, k) != AllocBlock(trace[n]).blk
    {
      assert PtrOk(trace[n], 0, i, k);
    }
  }
}
