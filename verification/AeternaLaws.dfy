/** What append, write-at and touch leave in a file, and how many blocks every write and removal takes and gives back. */
module AeternaLaws {
  import opened Bytes
  import opened Paths
  import opened AeternaModel
  import opened AeternaSound
  import opened AeternaDirs
  import opened AeternaFiles
  import opened AeternaTree
  import opened AeternaMkdir

  // ---- The bytes of a file -----------------------------------------------------------------------------------------

  lemma {:induction false} ReadBlocksLength(fs: Fs, ds: seq<u32>, size: nat, k: nat, acc: seq<byte>)
    requires Shape(fs) && k <= |ds| && |acc| <= k * fs.ss
    ensures |ReadBlocks(fs, ds, size, k, acc)| <= |ds| * fs.ss
    decreases |ds| - k
  {
    NextBlock(k, |ds|, fs.ss);
    if k < |ds| && ds[k] != 0 {
      var block := BlockAt(fs, ds[k]);
      var remaining := if size <= |acc| then 0 else size - |acc|;
      var taken := acc + block[..Min(Min(remaining, fs.ss), |block|)];
      NextBlock(k + 1, |ds|, fs.ss);
      if |taken| < size { ReadBlocksLength(fs, ds, size, k + 1, taken); }
    }
  }

  lemma NextBlock(k: nat, n: nat, ss: nat)
    requires k <= n
    ensures k * ss <= n * ss && (k + 1) * ss == k * ss + ss
  {
    assert n * ss == k * ss + (n - k) * ss;
  }

  /** No file reads longer than its eight blocks. */
  lemma ReadLength(fs: Fs, path: seq<byte>)
    requires Shape(fs) && ReadFile(fs, path).Some?
    ensures |ReadFile(fs, path).value| <= 8 * fs.ss
  {
    var ino := LookupPath(fs, path).value;
    ReadBlocksLength(fs, fs.inodes[ino].direct, fs.inodes[ino].size, 0, []);
  }

  /** The bytes a path reads as, or none. */
  function BytesOf(fs: Fs, path: seq<byte>): seq<byte>
    requires |fs.inodes| == MAX_INODES
  {
    match ReadFile(fs, path) case None => [] case Some(data) => data
  }

  lemma BytesShort(fs: Fs, path: seq<byte>)
    requires Shape(fs)
    ensures |BytesOf(fs, path)| <= 8 * fs.ss
  {
    if ReadFile(fs, path).Some? { ReadLength(fs, path); }
  }

  /** The path names no directory: nothing, or a regular file. */
  ghost predicate NoDir(fs: Fs, path: seq<byte>)
    requires |fs.inodes| == MAX_INODES
  {
    var t := LookupPath(fs, path); t.Some? ==> InTable(t.value) && IsReg(fs.inodes[t.value])
  }

  /** Through every path but the names of the written file one reads what one read before. */
  ghost predicate OthersKept(fs: Fs, fs1: Fs, path: seq<byte>, q: seq<byte>)
    requires |fs.inodes| == MAX_INODES == |fs1.inodes|
  {
    && (LookupPath(fs, q).Some? ==> LookupPath(fs1, q) == LookupPath(fs, q))
    && (LookupPath(fs1, q) != LookupPath(fs1, path) ==> ReadFile(fs1, q) == ReadFile(fs, q))
  }

  lemma Rewritten(fs: Fs, path: seq<byte>, all: seq<byte>, q: seq<byte>, r: Outcome)
    requires Sound(fs) && |all| < 0x1_0000_0000_0000_0000 && 0 !in SplitPath(path).name && NoDir(fs, path)
    requires r == WriteFile(fs, path, all) && r.ok
    ensures ReadFile(r.fs, path) == Some(all[..Min(|all|, 8 * fs.ss)]) && OthersKept(fs, r.fs, path, q)
  {
    WriteThenRead(fs, path, all, q);
  }

  /** `now` is the old bytes, then the data, cut at `max`. */
  ghost predicate IsAppended(now: seq<byte>, was: seq<byte>, data: seq<byte>, max: nat) {
    && |now| == Min(|was| + |data|, max) && was <= now
    && forall i :: |was| <= i < |now| && i - |was| < |data| ==> now[i] == data[i - |was|]
  }

  lemma Appended(was: seq<byte>, data: seq<byte>, max: nat)
    requires |was| <= max
    ensures IsAppended((was + data)[..Min(|was + data|, max)], was, data, max)
  {
  }

  /** `now` is the old bytes with the data over them at `offset`, zeros in a hole, cut at `max`. */
  ghost predicate IsLaid(now: seq<byte>, was: seq<byte>, offset: nat, data: seq<byte>, max: nat) {
    && |now| == Min(if |was| < offset + |data| then offset + |data| else |was|, max)
    && forall i :: 0 <= i < |now| ==>
         now[i] == if offset <= i < offset + |data| then data[i - offset] else if i < |was| then was[i] else 0
  }

  lemma Overlaid(was: seq<byte>, offset: nat, data: seq<byte>, max: nat)
    ensures var all := Overlay(was, offset, data); IsLaid(all[..Min(|all|, max)], was, offset, data, max)
  {
    var all := Overlay(was, offset, data);
    forall i | offset <= i < offset + |data| ensures all[i] == data[i - offset] {
      assert all[offset..offset + |data|][i - offset] == data[i - offset];
    }
  }

  /** A successful append leaves the old bytes, then the data, as far as eight blocks go. */
  lemma AppendThenRead(fs: Fs, path: seq<byte>, data: seq<byte>, q: seq<byte>)
    requires Sound(fs) && Fits(fs, AppendOp(path, data)) && 0 !in SplitPath(path).name && NoDir(fs, path)
    requires Apply(fs, AppendOp(path, data)).ok
    ensures var fs1 := Apply(fs, AppendOp(path, data)).fs; var was := BytesOf(fs, path);
            && ReadFile(fs1, path).Some? && OthersKept(fs, fs1, path, q)
            && IsAppended(ReadFile(fs1, path).value, was, data, 8 * fs.ss)
  {
    BytesShort(fs, path);
    var was := BytesOf(fs, path);
    Rewritten(fs, path, was + data, q, Apply(fs, AppendOp(path, data)));
    Appended(was, data, 8 * fs.ss);
  }

  /** A successful write at an offset leaves the data there, zeros in a hole before it, and all other bytes, as far as
      eight blocks go. */
  lemma WriteAtThenRead(fs: Fs, path: seq<byte>, offset: nat, data: seq<byte>, q: seq<byte>)
    requires Sound(fs) && Fits(fs, WriteAtOp(path, offset, data)) && 0 !in SplitPath(path).name && NoDir(fs, path)
    requires Apply(fs, WriteAtOp(path, offset, data)).ok
    ensures var fs1 := Apply(fs, WriteAtOp(path, offset, data)).fs; var was := BytesOf(fs, path);
            && ReadFile(fs1, path).Some? && OthersKept(fs, fs1, path, q)
            && IsLaid(ReadFile(fs1, path).value, was, offset, data, 8 * fs.ss)
  {
    var was := BytesOf(fs, path);
    Rewritten(fs, path, Overlay(was, offset, data), q, Apply(fs, WriteAtOp(path, offset, data)));
    Overlaid(was, offset, data, 8 * fs.ss);
  }

  /** A touch changes nothing where something is; else, if it succeeds, the path reads as empty. */
  lemma TouchThenRead(fs: Fs, path: seq<byte>, q: seq<byte>)
    requires Sound(fs) && 0 !in SplitPath(path).name && Apply(fs, TouchOp(path)).ok
    ensures var fs1 := Apply(fs, TouchOp(path)).fs;
            if LookupPath(fs, path).Some? then fs1 == fs
            else ReadFile(fs1, path) == Some([]) && OthersKept(fs, fs1, path, q)
  {
    if LookupPath(fs, path).None? { WriteThenRead(fs, path, [], q); }
  }

  // ---- Blocks taken and given back -----------------------------------------------------------------------------------

  /** How many bits are clear. */
  function Clear(bits: seq<bool>): nat {
    if bits == [] then 0 else Clear(bits[..|bits| - 1]) + (if bits[|bits| - 1] then 0 else 1)
  }

  lemma {:induction false} ClearUpdate(bits: seq<bool>, i: nat, v: bool)
    requires i < |bits| && bits[i] != v
    ensures Clear(bits[i := v]) == if v then Clear(bits) - 1 else Clear(bits) + 1
  {
    var n := |bits| - 1;
    if i == n {
      assert bits[i := v][..n] == bits[..n];
    } else {
      assert bits[i := v][..n] == bits[..n][i := v];
      ClearUpdate(bits[..n], i, v);
    }
  }

  lemma {:induction false} NoneClear(bits: seq<bool>)
    requires forall i :: 0 <= i < |bits| ==> bits[i]
    ensures Clear(bits) == 0
  {
    if bits != [] { NoneClear(bits[..|bits| - 1]); }
  }

  lemma {:induction false} SomeClear(bits: seq<bool>, i: nat)
    requires i < |bits| && !bits[i]
    ensures Clear(bits) > 0
  {
    if i < |bits| - 1 { SomeClear(bits[..|bits| - 1], i); }
  }

  /** An allocation succeeds if and only if a bit is clear, and takes one. */
  lemma AllocClear(fs: Fs)
    requires |fs.bused| == |fs.blocks|
    ensures AllocBlock(fs).GotBlock? <==> Clear(fs.bused) > 0
    ensures AllocBlock(fs).GotBlock? ==> Clear(AllocBlock(fs).fs.bused) == Clear(fs.bused) - 1
  {
    var i := FirstClear(fs.bused, 0);
    if i == |fs.bused| {
      NoneClear(fs.bused);
    } else {
      SomeClear(fs.bused, i);
      ClearUpdate(fs.bused, i, true);
    }
  }

  /** Pointers in use from `k` on. */
  function Pointers(ds: seq<u32>, k: nat): nat
    requires k <= |ds|
    decreases |ds| - k
  {
    if k == |ds| then 0 else (if ds[k] != 0 then 1 else 0) + Pointers(ds, k + 1)
  }

  /** The pointers in use from `k` on name marked blocks, no two the same. */
  ghost predicate OwnBlocks(bused: seq<bool>, ds: seq<u32>, k: nat) {
    && (forall l :: k <= l < |ds| && ds[l] != 0 ==> ds[l] < |bused| && bused[ds[l]])
    && (forall l, m :: k <= l < m < |ds| && ds[l] != 0 ==> ds[l] != ds[m])
  }

  /** Freeing the pointers of a file clears as many bits as it has. */
  lemma {:induction false} FreeAllClear(fs: Fs, ds: seq<u32>, k: nat)
    requires k <= |ds| && OwnBlocks(fs.bused, ds, k)
    ensures Clear(FreeAll(fs, ds, k).bused) == Clear(fs.bused) + Pointers(ds, k)
    decreases |ds| - k
  {
    if k < |ds| {
      if ds[k] != 0 { ClearUpdate(fs.bused, ds[k], false); }
      FreeAllClear(if ds[k] != 0 then FreeBlock(fs, ds[k]) else fs, ds, k + 1);
    }
  }

  lemma SoundOwns(fs: Fs, ino: nat)
    requires Sound(fs) && InTable(ino)
    ensures OwnBlocks(fs.bused, fs.inodes[ino].direct, 0)
  {
    var ds := fs.inodes[ino].direct;
    forall l | 0 <= l < 8 && ds[l] != 0 ensures ds[l] < |fs.bused| && fs.bused[ds[l]] { Owns(fs, ino, l); }
    forall l, m | 0 <= l < m < 8 && ds[l] != 0 ensures ds[l] != ds[m] { Apart(fs, ino, l, ino, m); }
  }

  /** Chunks of at most `ss` bytes for the bytes from `written` to `len`, `slots` at most. */
  function Chunks(written: nat, len: nat, slots: nat, ss: nat): nat
    decreases slots
  {
    if slots == 0 || written >= len then 0 else 1 + Chunks(Min(written + ss, len), len, slots - 1, ss)
  }

  /** Blocks a file of `len` bytes takes. */
  function Needed(len: nat, ss: nat): nat
    requires ss > 0
  {
    Min(8, (len + ss - 1) / ss)
  }

  lemma {:induction false} ChunksAre(written: nat, len: nat, slots: nat, ss: nat)
    requires ss > 0 && written <= len
    ensures Chunks(written, len, slots, ss) == Min(slots, (len - written + ss - 1) / ss)
    decreases slots
  {
    if slots > 0 && written < len {
      ChunksAre(Min(written + ss, len), len, slots - 1, ss);
      OneChunk(len - written, ss);
    } else if written >= len {
      DivideIs(ss - 1, ss, 0, ss - 1);
    }
  }

  lemma OneChunk(left: nat, ss: nat)
    requires left > 0 && ss > 0
    ensures (left + ss - 1) / ss == 1 + ((if left > ss then left - ss else 0) + ss - 1) / ss
  {
    var q, m := (left - 1) / ss, (left - 1) % ss;
    DivideIs(left + ss - 1, ss, q + 1, m);
    if left > ss { DivideIs(left - 1, ss, q, m); } else { DivideIs(left - 1, ss, 0, left - 1); DivideIs(ss - 1, ss, 0, ss - 1); }
  }

  /** With `had` clear blocks and `n` chunks: success if and only if they are enough, and then as many are taken. */
  ghost predicate Pays(r: Filled, had: nat, n: nat) { (r.ok <==> n <= had) && (r.ok ==> Clear(r.fs.bused) == had - n) }

  /** Filling succeeds if and only if there is a clear block for every chunk, and takes as many. */
  lemma {:induction false} FillClear(fs: Fs, ds: seq<u32>, k: nat, data: seq<byte>, written: nat)
    requires Shape(fs) && k <= |ds| && written <= |data|
    ensures Pays(FillBlocks(fs, ds, k, data, written), Clear(fs.bused), Chunks(written, |data|, |ds| - k, fs.ss))
    decreases |ds| - k
  {
    if k == |ds| || written == |data| {
      FillEnds(fs, ds, k, data, written);
    } else {
      AllocClear(fs);
      var end, n := Min(written + fs.ss, |data|), Chunks(written, |data|, |ds| - k, fs.ss);
      assert n == 1 + Chunks(end, |data|, |ds| - k - 1, fs.ss);
      if AllocBlock(fs).GotBlock? {
        var fs1 := FillTurn(fs, ds, k, data, written);
        FillClear(fs1, ds[k := AllocBlock(fs).blk], k + 1, data, end);
      } else {
        FillStops(fs, ds, k, data, written);
      }
    }
  }

  lemma FillEnds(fs: Fs, ds: seq<u32>, k: nat, data: seq<byte>, written: nat)
    requires Shape(fs) && k <= |ds| && written <= |data| && (k == |ds| || written == |data|)
    ensures FillBlocks(fs, ds, k, data, written) == Filled(fs, ds, true) && Chunks(written, |data|, |ds| - k, fs.ss) == 0
  {
  }

  lemma FillStops(fs: Fs, ds: seq<u32>, k: nat, data: seq<byte>, written: nat)
    requires Shape(fs) && k < |ds| && written < |data| && AllocBlock(fs).NoBlock?
    ensures FillBlocks(fs, ds, k, data, written) == Filled(fs, ds, false)
  {
  }

  /** One chunk written. */
  lemma FillTurn(fs: Fs, ds: seq<u32>, k: nat, data: seq<byte>, written: nat) returns (fs1: Fs)
    requires Shape(fs) && k < |ds| && written < |data| && AllocBlock(fs).GotBlock?
    ensures Shape(fs1) && fs1.ss == fs.ss && fs1.bused == AllocBlock(fs).fs.bused
    ensures FillBlocks(fs, ds, k, data, written)
         == FillBlocks(fs1, ds[k := AllocBlock(fs).blk], k + 1, data, Min(written + fs.ss, |data|))
  {
    var g := AllocBlock(fs);
    fs1 := WriteBlock(g.fs, g.blk, data[written..Min(written + fs.ss, |data|)]);
  }

  lemma FillExact(fs: Fs, ino: nat, data: seq<byte>)
    requires Shape(fs) && InTable(ino) && |data| < 0x1_0000_0000_0000_0000
    ensures var r := Fill(fs, ino, data); var n := Needed(|data|, fs.ss);
            (r.ok <==> n <= Clear(fs.bused)) && (r.ok ==> Clear(r.fs.bused) == Clear(fs.bused) - n)
  {
    FillClear(fs, fs.inodes[ino].direct, 0, data, 0);
    ChunksAre(0, |data|, 8, fs.ss);
  }

  /** Overwriting a file succeeds if and only if the clear blocks and the file's own are enough; then the old blocks are
      given back and the new ones taken. */
  lemma OverwriteExact(fs: Fs, path: seq<byte>, data: seq<byte>, ino: nat)
    requires Sound(fs) && |data| < 0x1_0000_0000_0000_0000
    requires LookupPath(fs, path) == Some(ino) && InTable(ino) && IsReg(fs.inodes[ino])
    ensures var r := WriteFile(fs, path, data); var n := Needed(|data|, fs.ss);
            var had := Clear(fs.bused) + Pointers(fs.inodes[ino].direct, 0);
            (r.ok <==> n <= had) && (r.ok ==> Clear(r.fs.bused) == had - n)
  {
    SoundOwns(fs, ino);
    FreeAllClear(fs, fs.inodes[ino].direct, 0);
    FreeAllKeeps(fs, fs.inodes[ino].direct, 0);
    FillExact(Truncate(fs, ino), ino, data);
  }

  /** An added entry takes a block if and only if no slot is free. */
  lemma AddClear(fs: Fs, dir: nat, name: Name, child: u32)
    requires Sound(fs) && InTable(dir) && IsDir(fs.inodes[dir]) && DirAdd(fs, dir, name, child).ok
    ensures Clear(DirAdd(fs, dir, name, child).fs.bused) == Clear(fs.bused) - (if HasSlot(fs, dir) then 0 else 1)
  {
    var ds := fs.inodes[dir].direct;
    AllocClear(fs);
    NoUnusedFrom(fs, ds, 0);
    DirFindUnusedBounds(fs, ds, 0);
  }

  /** Creating and filling a file succeeds if and only if it can be created and the blocks left after that are enough. */
  lemma CreateAndFillExact(fs: Fs, path: seq<byte>, data: seq<byte>, parent: nat)
    requires Tidy(fs) && |data| < 0x1_0000_0000_0000_0000 && 0 !in SplitPath(path).name && LookupPath(fs, path) == None
    requires LookupPath(fs, SplitPath(path).parent) == Some(parent) && Live(fs, parent) && IsDir(fs.inodes[parent])
    ensures var r := WriteFile(fs, path, data); var entry := if HasSlot(fs, parent) then 0 else 1;
            var n := Needed(|data|, fs.ss) + entry;
            && (r.ok <==> && AllocInode(fs).ino != 0 && |SplitPath(path).name| <= 27
                          && (HasSlot(fs, parent) || HasPointer(fs, parent)) && n <= Clear(fs.bused))
            && (r.ok ==> Clear(r.fs.bused) == Clear(fs.bused) - n)
  {
    CreateExact(fs, path, parent);
    AnyClear(fs.bused);
    var c := CreateFile(fs, path);
    if c.ok {
      CreateClear(fs, path, parent);
      FillExact(c.fs, c.ino, data);
    }
  }

  lemma AnyClear(bits: seq<bool>)
    ensures Clear(bits) > 0 <==> exists b :: 0 <= b < |bits| && !bits[b]
  {
    if b :| 0 <= b < |bits| && !bits[b] { SomeClear(bits, b); } else { NoneClear(bits); }
  }

  lemma CreateClear(fs: Fs, path: seq<byte>, parent: nat)
    requires Tidy(fs) && LookupPath(fs, path) == None && CreateFile(fs, path).ok
    requires LookupPath(fs, SplitPath(path).parent) == Some(parent) && Live(fs, parent) && IsDir(fs.inodes[parent])
    ensures var c := CreateFile(fs, path);
            InTable(c.ino) && c.fs.ss == fs.ss && Clear(c.fs.bused) == Clear(fs.bused) - (if HasSlot(fs, parent) then 0 else 1)
  {
    var a := AllocInode(fs);
    var name := SplitPath(path).name;
    FreshInodeKeeps(fs, MODE_REG, 1);
    var fs1 := PutInode(a.fs, a.ino, NewInode(MODE_REG, 1));
    SlotsKept(fs, fs1, a.ino, parent);
    AddClear(fs1, parent, name, a.ino);
    DirAddKeeps(fs1, parent, name, a.ino);
  }

  /** Removing gives back exactly the blocks and the inode of what it removes. */
  lemma RemoveGivesBack(fs: Fs, path: seq<byte>, ino: nat)
    requires Sound(fs) && LookupPath(fs, path) == Some(ino) && InTable(ino)
    ensures var r := Remove(fs, path);
            && r.ok && Clear(r.fs.bused) == Clear(fs.bused) + Pointers(fs.inodes[ino].direct, 0)
            && r.fs.iused == fs.iused[ino := false]
  {
    SoundOwns(fs, ino);
    FreeAllClear(fs, fs.inodes[ino].direct, 0);
    FreeAllKeeps(fs, fs.inodes[ino].direct, 0);
    RemoveIs(fs, path, ino);
    DropNameKeeps(Release(fs, ino), path);
  }

  lemma DropNameKeeps(fs: Fs, path: seq<byte>)
    requires Shape(fs)
    ensures DropName(fs, path).bused == fs.bused && DropName(fs, path).iused == fs.iused
  {
  }
}
