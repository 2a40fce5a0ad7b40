/** What `mkdir` changes, for every path, and when its report of success is true. */
module AeternaMkdir {
  import opened Bytes
  import opened Paths
  import opened AeternaModel
  import opened AeternaSound
  import opened AeternaDirs
  import opened AeternaFiles
  import opened AeternaTree

  // ---- All other paths --------------------------------------------------------------------------------------------

  predicate Dot(n: Name) { n == [DOT] || n == [DOT, DOT] }

  ghost predicate Dotless(comps: seq<Name>) { forall k :: 0 <= k < |comps| ==> !Dot(comps[k]) }

  /** Inodes in use stay in use and keep their kind. */
  ghost predicate Stays(fs: Fs, fs1: Fs) {
    && Shape(fs) && Shape(fs1)
    && forall i :: InTable(i) && fs.iused[i] ==> fs1.iused[i] && fs1.inodes[i].mode == fs.inodes[i].mode
  }

  /** A directory made since `fs`. */
  ghost predicate Made(fs: Fs, fs1: Fs, v: nat) {
    Shape(fs) && Shape(fs1) && InTable(v) && !fs.iused[v] && fs1.iused[v] && IsDir(fs1.inodes[v])
  }

  /** A path without dot components that resolves only now leads to a directory made since. */
  ghost predicate NewIsMade(fs: Fs, fs1: Fs, comps: seq<Name>) {
    Shape(fs) && Shape(fs1) &&
    (Dotless(comps) && Walk(fs, INODE_ROOT, comps) == None && Walk(fs1, INODE_ROOT, comps).Some?
     ==> Made(fs, fs1, Walk(fs1, INODE_ROOT, comps).value))
  }

  ghost predicate OnlyMade(fs: Fs, fs1: Fs) { Stays(fs, fs1) && Grows(fs, fs1) && forall comps :: NewIsMade(fs, fs1, comps) }

  lemma OnlyMadeSelf(fs: Fs)
    requires Shape(fs)
    ensures OnlyMade(fs, fs)
  {
  }

  lemma OnlyMadeTrans(fs: Fs, m: Fs, fs1: Fs)
    requires OnlyMade(fs, m) && OnlyMade(m, fs1)
    ensures OnlyMade(fs, fs1)
  {
    GrowsTrans(fs, m, fs1);
    forall comps ensures NewIsMade(fs, fs1, comps) {
      assert NewIsMade(fs, m, comps) && NewIsMade(m, fs1, comps);
      WalkGrows(m, fs1, INODE_ROOT, comps);
    }
  }

  /** Apart from dot names, `fs1` has one entry more: `name` in `parent`, leading to `x`, which has none. */
  ghost predicate OneName(fs: Fs, fs1: Fs, parent: nat, name: Name, x: nat) {
    && Shape(fs) && Shape(fs1)
    && (forall i: nat, n: Name :: !Dot(n) && (i != parent || n != name) ==> DirLookup(fs1, i, n) == DirLookup(fs, i, n))
    && DirLookup(fs, parent, name) == None && DirLookup(fs1, parent, name) in {None, Some(x)}
    && (forall n: Name :: !Dot(n) && (x != parent || n != name) ==> DirLookup(fs1, x, n) == None)
  }

  lemma {:induction false} NewWalk(fs: Fs, fs1: Fs, i: nat, comps: seq<Name>, parent: nat, name: Name, x: nat)
    requires OneName(fs, fs1, parent, name, x) && x != parent && Dotless(comps)
    requires Walk(fs, i, comps) == None && Walk(fs1, i, comps).Some?
    ensures Walk(fs1, i, comps) == Some(x)
    decreases |comps|
  {
    var n := comps[0];
    var next := DirLookup(fs1, i, n).value;
    if i != parent || n != name { NewWalk(fs, fs1, next, comps[1..], parent, name, x); }
  }

  lemma NewDirStays(fs: Fs, parent: nat, name: Name)
    requires Tidy(fs) && AllocInode(fs).ino != 0 && Live(fs, parent) && IsDir(fs.inodes[parent])
    ensures var x := AllocInode(fs).ino; var r := DirAdd(NewDir(fs, parent), parent, name, x).fs;
            Stays(fs, r) && Made(fs, r, x)
  {
    var a := AllocInode(fs);
    FreshInodeKeeps(fs, MODE_DIR, 2);
    var fs1 := PutInode(a.fs, a.ino, NewInode(MODE_DIR, 2));
    AddKinds(fs1, a.ino, [DOT], a.ino);
    DirAddSound(fs1, a.ino, [DOT], a.ino);
    var fs2 := DirAdd(fs1, a.ino, [DOT], a.ino).fs;
    AddKinds(fs2, a.ino, [DOT, DOT], parent);
    DirAddSound(fs2, a.ino, [DOT, DOT], parent);
    AddKinds(NewDir(fs, parent), parent, name, a.ino);
  }

  lemma NewDirLookups(fs: Fs, parent: nat, i: nat, n: Name)
    requires Tidy(fs) && AllocInode(fs).ino != 0 && Live(fs, parent) && IsDir(fs.inodes[parent]) && !Dot(n)
    ensures DirLookup(NewDir(fs, parent), i, n) == DirLookup(fs, i, n)
  {
    var a := AllocInode(fs);
    var x := a.ino;
    FreshInodeKeeps(fs, MODE_DIR, 2);
    var fs1 := PutInode(a.fs, x, NewInode(MODE_DIR, 2));
    EmptyDir(fs1, x, [DOT]);
    EmptyDir(fs1, x, [DOT, DOT]);
    EmptyDir(fs1, x, n);
    if i != x { KeptLookup(fs, fs1, x, i, n); }
    AddElsewhere(fs1, x, [DOT], x, i, n);
    AddElsewhere(fs1, x, [DOT], x, x, [DOT, DOT]);
    DirAddSound(fs1, x, [DOT], x);
    AddElsewhere(DirAdd(fs1, x, [DOT], x).fs, x, [DOT, DOT], parent, i, n);
  }

  lemma NamedLookups(fs: Fs, parent: nat, name: Name)
    requires Tidy(fs) && AllocInode(fs).ino != 0 && 0 < |name| && 0 !in name && !Dot(name)
    requires Live(fs, parent) && IsDir(fs.inodes[parent]) && DirLookup(fs, parent, name) == None
    ensures var x := AllocInode(fs).ino; OneName(fs, DirAdd(NewDir(fs, parent), parent, name, x).fs, parent, name, x) && x != parent
  {
    var x := AllocInode(fs).ino;
    var fs3 := NewDir(fs, parent);
    var r := DirAdd(fs3, parent, name, x).fs;
    NewDirSpec(fs, parent, name);
    NameNewDir(fs, parent, name);
    forall i: nat, n: Name | !Dot(n) && (i != parent || n != name) ensures DirLookup(r, i, n) == DirLookup(fs, i, n) {
      NewDirLookups(fs, parent, i, n);
      if |name| <= 27 { AddElsewhere(fs3, parent, name, x, i, n); }
    }
    forall n: Name | !Dot(n) ensures DirLookup(r, x, n) == None {
      if |name| <= 27 { AddElsewhere(fs3, parent, name, x, x, n); }
    }
  }

  lemma MkdirInMakes(fs: Fs, path: seq<byte>, parent: nat)
    requires Tidy(fs) && Components(path) != [] && LookupPath(fs, SplitPath(path).parent) == Some(parent)
    requires 0 !in SplitPath(path).name && !Dot(SplitPath(path).name) && Live(fs, parent) && IsDir(fs.inodes[parent])
    ensures OnlyMade(fs, MkdirIn(fs, path, parent).fs)
  {
    if LookupPath(fs, path) == None && AllocInode(fs).ino != 0 {
      AbsentName(fs, path);
      MadeIn(fs, parent, SplitPath(path).name);
    } else {
      OnlyMadeSelf(fs);
    }
  }

  lemma MadeIn(fs: Fs, parent: nat, name: Name)
    requires Tidy(fs) && AllocInode(fs).ino != 0 && 0 < |name| && 0 !in name && !Dot(name)
    requires Live(fs, parent) && IsDir(fs.inodes[parent]) && DirLookup(fs, parent, name) == None
    ensures OnlyMade(fs, DirAdd(NewDir(fs, parent), parent, name, AllocInode(fs).ino).fs)
  {
    var x := AllocInode(fs).ino;
    var r := DirAdd(NewDir(fs, parent), parent, name, x).fs;
    NameNewDir(fs, parent, name);
    NewDirStays(fs, parent, name);
    NamedLookups(fs, parent, name);
    forall comps ensures NewIsMade(fs, r, comps) {
      if Dotless(comps) && Walk(fs, INODE_ROOT, comps) == None && Walk(r, INODE_ROOT, comps).Some? {
        NewWalk(fs, r, INODE_ROOT, comps, parent, name, x);
      }
    }
  }

  lemma {:induction false} MkdirMakes(fs: Fs, path: seq<byte>)
    requires Tidy(fs) && ThroughDirs(fs, Components(path))
    ensures Tidy(Mkdir(fs, path).fs) && OnlyMade(fs, Mkdir(fs, path).fs)
    decreases |Components(path)|
  {
    var s := SplitPath(path);
    var comps := Components(path);
    SplitIsLastComponent(path);
    MkdirSpec(fs, path);
    if s.name == [] {
      OnlyMadeSelf(fs);
    } else {
      assert comps[..|comps| - 1] == Components(s.parent) && comps[|comps| - 1] == s.name;
      ParentThroughDirs(fs, comps);
      PathsAreLive(fs, s.parent);
      match LookupPath(fs, s.parent)
      case Some(parent) => MkdirInMakes(fs, path, parent);
      case None => MkdirUnderMakes(fs, path);
    }
  }

  lemma MkdirUnderMakes(fs: Fs, path: seq<byte>)
    requires Tidy(fs) && Components(path) != [] && LookupPath(fs, SplitPath(path).parent) == None
    requires ThroughDirs(fs, Components(SplitPath(path).parent)) && |Components(SplitPath(path).parent)| < |Components(path)|
    requires 0 !in SplitPath(path).name && !Dot(SplitPath(path).name)
    ensures OnlyMade(fs, Mkdir(fs, path).fs)
    decreases |Components(path)|, 0
  {
    var up := SplitPath(path).parent;
    SplitIsLastComponent(path);
    MkdirMakes(fs, up);
    MkdirSpec(fs, up);
    var m := Mkdir(fs, up);
    if m.ok && LookupPath(m.fs, up).Some? {
      PathsAreLive(m.fs, up);
      MkdirInMakes(m.fs, path, LookupPath(m.fs, up).value);
      OnlyMadeTrans(fs, m.fs, MkdirIn(m.fs, path, LookupPath(m.fs, up).value).fs);
    }
  }

  /** A mkdir that goes through directories keeps the tree; every path that resolved still leads to the same file or
      directory and reads the same; and a path without dot components that did not resolve still does not, or leads to
      a directory made by the call. */
  lemma MkdirFrame(fs: Fs, path: seq<byte>, q: seq<byte>)
    requires Tidy(fs) && ThroughDirs(fs, Components(path))
    ensures var fs1 := Mkdir(fs, path).fs; var t, t1 := LookupPath(fs, q), LookupPath(fs1, q);
            && Tidy(fs1)
            && (t.Some? ==> t1 == t && ReadFile(fs1, q) == ReadFile(fs, q))
            && (t == None && Dotless(Components(q)) && t1.Some? ==> Made(fs, fs1, t1.value) && ReadFile(fs1, q) == None)
  {
    var fs1 := Mkdir(fs, path).fs;
    MkdirMakes(fs, path);
    WalkGrows(fs, fs1, INODE_ROOT, Components(q));
    PathsAreLive(fs, q);
    assert NewIsMade(fs, fs1, Components(q));
  }

  // ---- When the report is true ----------------------------------------------------------------------------------------

  /** A slot that a scan of the directory reaches is free. */
  ghost predicate HasSlot(fs: Fs, dir: nat)
    requires Shape(fs) && InTable(dir)
  {
    var ds := fs.inodes[dir].direct; exists j: nat, t: nat :: Reached(fs, ds, j, t) && InoAt(fs, ds, j, t) == 0
  }

  ghost predicate HasPointer(fs: Fs, dir: nat)
    requires Shape(fs) && InTable(dir)
  {
    exists k :: 0 <= k < 8 && fs.inodes[dir].direct[k] == 0
  }

  ghost predicate TwoClear(bits: seq<bool>) { exists b, c :: 0 <= b < c < |bits| && !bits[b] && !bits[c] }

  /** With the first clear bit taken, another is left exactly if there were two. */
  lemma OneLeft(bits: seq<bool>)
    ensures var b := FirstClear(bits, 0); var left := if b < |bits| then bits[b := true] else bits;
            (exists c :: 0 <= c < |left| && !left[c]) <==> TwoClear(bits)
  {
    var b := FirstClear(bits, 0);
    var left := if b < |bits| then bits[b := true] else bits;
    if c :| 0 <= c < |left| && !left[c] { assert !bits[b] && !bits[c] && b < c; }
    if x, y :| 0 <= x < y < |bits| && !bits[x] && !bits[y] { assert !left[y]; }
  }

  /** "." takes one block if there is one, and ".." then fits beside it. */
  lemma DotTakes(fs: Fs, x: nat)
    requires Sound(fs) && InTable(x) && IsDir(fs.inodes[x]) && fs.inodes[x].direct == NO_BLOCKS
    ensures var b := FirstClear(fs.bused, 0); var r := DirAdd(fs, x, [DOT], x);
            && Shape(r.fs)
            && if b == |fs.bused| then r.fs == fs else
               && r.fs.bused == fs.bused[b := true] && IsDir(r.fs.inodes[x]) && b != 0
               && r.fs.inodes[x].direct[0] == b && BlockAt(r.fs, b) == PutEntry(Zeros(fs.ss), 0, x, [DOT])
  {
    DirAddShape(fs, x, [DOT], x);
    assert FirstZero(fs.inodes[x].direct, 0) == 0;
    DirAddGrown(fs, x, [DOT], x, 0);
  }

  lemma SecondSlotFree(ss: nat, x: u32)
    requires 64 <= ss && ss % 32 == 0 && x != 0
    ensures var blk := PutEntry(Zeros(ss), 0, x, [DOT]); FindUnused(blk, 0) == 1 < SlotCount(blk)
  {
    var blk := PutEntry(Zeros(ss), 0, x, [DOT]);
    LeRoundTrip32(x);
    assert blk[0..4] == ToLe(4, x);
    assert blk[32..36] == Zeros(4);
    ZeroIno(blk);
  }

  lemma ZeroIno(blk: seq<byte>)
    requires |blk| >= 64 && blk[32..36] == Zeros(4) && SlotIno(blk, 0) != 0
    ensures FindUnused(blk, 0) == 1
  {
    LeRoundTrip32(0);
    assert ToLe(4, 0) == Zeros(4);
  }

  lemma DotDotTakes(fs: Fs, x: nat, parent: u32, b: nat)
    requires Sound(fs) && InTable(x) && IsDir(fs.inodes[x]) && fs.inodes[x].direct[0] == b != 0
    requires BlockAt(fs, b) == PutEntry(Zeros(fs.ss), 0, x, [DOT])
    ensures DirAdd(fs, x, [DOT, DOT], parent).fs.bused == fs.bused
  {
    SecondSlotFree(fs.ss, x);
    assert DirFindUnused(fs, fs.inodes[x].direct, 0) == At(0, 1);
  }

  /** The new directory takes one block if there is one. */
  lemma NewDirTakes(fs: Fs, parent: nat)
    requires Sound(fs) && AllocInode(fs).ino != 0 && parent < 0x1_0000_0000
    ensures var b := FirstClear(fs.bused, 0);
            NewDir(fs, parent).bused == if b < |fs.bused| then fs.bused[b := true] else fs.bused
  {
    var a := AllocInode(fs);
    FreshInodeKeeps(fs, MODE_DIR, 2);
    var fs1 := PutInode(a.fs, a.ino, NewInode(MODE_DIR, 2));
    var b := FirstClear(fs.bused, 0);
    DotTakes(fs1, a.ino);
    DirAddSound(fs1, a.ino, [DOT], a.ino);
    var fs2 := DirAdd(fs1, a.ino, [DOT], a.ino).fs;
    if b < |fs.bused| { DotDotTakes(fs2, a.ino, parent, b); } else { NothingTaken(fs1, a.ino, parent); }
  }

  lemma NothingTaken(fs: Fs, x: nat, parent: u32)
    requires Shape(fs) && InTable(x) && fs.inodes[x].direct == NO_BLOCKS && FirstClear(fs.bused, 0) == |fs.bused|
    ensures DirAdd(fs, x, [DOT, DOT], parent).fs == fs
  {
  }

  /** The new directory leaves its parent as it is. */
  lemma ParentKept(fs: Fs, parent: nat)
    requires Sound(fs) && AllocInode(fs).ino != 0 && InTable(parent) && parent != AllocInode(fs).ino
    ensures Keeps(fs, NewDir(fs, parent), AllocInode(fs).ino)
  {
    var a := AllocInode(fs);
    FreshInodeKeeps(fs, MODE_DIR, 2);
    var fs1 := PutInode(a.fs, a.ino, NewInode(MODE_DIR, 2));
    DirAddKeeps(fs1, a.ino, [DOT], a.ino);
    DirAddSound(fs1, a.ino, [DOT], a.ino);
    var fs2 := DirAdd(fs1, a.ino, [DOT], a.ino).fs;
    DirAddKeeps(fs2, a.ino, [DOT, DOT], parent);
    KeepsTrans(fs, fs1, fs2, a.ino);
    KeepsTrans(fs, fs2, NewDir(fs, parent), a.ino);
  }

  lemma SlotsKept(fs: Fs, fs3: Fs, x: nat, parent: nat)
    requires Keeps(fs, fs3, x) && InTable(parent) && parent != x
    ensures HasSlot(fs3, parent) <==> HasSlot(fs, parent)
    ensures HasPointer(fs3, parent) <==> HasPointer(fs, parent)
  {
    var ds := fs.inodes[parent].direct;
    KeptBlocks(fs, fs3, x, parent);
    assert fs3.inodes[parent].direct == ds;
    forall j: nat, t: nat ensures Reached(fs3, ds, j, t) <==> Reached(fs, ds, j, t) {
      if j < 8 && ds[j] != 0 { assert BlockAt(fs3, ds[j]) == BlockAt(fs, ds[j]); }
    }
    if j: nat, t: nat :| Reached(fs, ds, j, t) && InoAt(fs, ds, j, t) == 0 { assert Reached(fs3, ds, j, t) && InoAt(fs3, ds, j, t) == 0; }
    if j: nat, t: nat :| Reached(fs3, ds, j, t) && InoAt(fs3, ds, j, t) == 0 { assert Reached(fs, ds, j, t) && InoAt(fs, ds, j, t) == 0; }
  }

  /** There is room for the entry of a new directory: its name fits, and the parent has a free slot, or a free pointer
      and a block is left after "." has taken one. */
  ghost predicate RoomFor(fs: Fs, parent: nat, name: Name)
    requires Shape(fs) && InTable(parent)
  {
    |name| <= 27 && (HasSlot(fs, parent) || (HasPointer(fs, parent) && TwoClear(fs.bused)))
  }

  lemma AddsIfRoom(fs: Fs, parent: nat, name: Name)
    requires Tidy(fs) && AllocInode(fs).ino != 0 && 0 < |name| && 0 !in name
    requires Live(fs, parent) && IsDir(fs.inodes[parent]) && DirLookup(fs, parent, name) == None
    ensures DirAdd(NewDir(fs, parent), parent, name, AllocInode(fs).ino).ok <==> RoomFor(fs, parent, name)
  {
    var x := AllocInode(fs).ino;
    var fs3 := NewDir(fs, parent);
    if |name| <= 27 {
      NewDirSpec(fs, parent, name);
      ParentKept(fs, parent);
      SlotsKept(fs, fs3, x, parent);
      NewDirTakes(fs, parent);
      OneLeft(fs.bused);
      FullExactly(fs3, parent, name, x);
    }
  }

  lemma FullExactly(fs: Fs, dir: nat, name: Name, child: u32)
    requires Sound(fs) && InTable(dir) && IsDir(fs.inodes[dir]) && |name| <= 27
    ensures DirAdd(fs, dir, name, child).ok <==>
            HasSlot(fs, dir) || (HasPointer(fs, dir) && exists b :: 0 <= b < |fs.bused| && !fs.bused[b])
  {
    AddFailsWhenFull(fs, dir, name, child);
  }

  /** `mkdir` reports success for a missing path whose parent exists even when it has made nothing: it tells the truth
      if and only if there is room for the entry, which can be seen before the call. */
  lemma MkdirTruth(fs: Fs, path: seq<byte>, parent: nat)
    requires Tidy(fs) && Components(path) != [] && 0 !in SplitPath(path).name
    requires LookupPath(fs, path) == None && LookupPath(fs, SplitPath(path).parent) == Some(parent)
    requires Live(fs, parent) && IsDir(fs.inodes[parent]) && AllocInode(fs).ino != 0
    ensures var r := Mkdir(fs, path);
            r.ok && (LookupPath(r.fs, path).Some? <==> RoomFor(fs, parent, SplitPath(path).name))
  {
    var s := SplitPath(path);
    AbsentName(fs, path);
    NameNewDir(fs, parent, s.name);
    AddsIfRoom(fs, parent, s.name);
    var r := Mkdir(fs, path);
    assert r.fs == DirAdd(NewDir(fs, parent), parent, s.name, AllocInode(fs).ino).fs;
    WalkGrows(fs, r.fs, INODE_ROOT, Components(s.parent));
    LookupThroughParent(r.fs, path);
  }

  /** A name of 28 bytes: on every freshly formatted disk, mkdir reports success and the directory is not there. */
  lemma LongNameLies(ss: nat, blocks: seq<seq<byte>>)
    requires 64 <= ss < 0x1_0000_0000 && ss % 32 == 0 && 0 < |blocks| <= MAX_BLOCKS
    requires forall b :: 0 <= b < |blocks| ==> |blocks[b]| == ss
    ensures var name: Name := seq(28, _ => 0x61); var r := Mkdir(Formatted(ss, blocks), [SLASH] + name);
            r.ok && LookupPath(r.fs, [SLASH] + name) == None
  {
    var name: Name := seq(28, _ => 0x61);
    var fs, path := Formatted(ss, blocks), [SLASH] + name;
    FormattedTidy(ss, blocks);
    OneComponent(name);
    EmptyRoot(fs, path, name);
    FirstClearIs(fs.iused, 2, 2);
    MkdirTruth(fs, path, INODE_ROOT);
  }

  /** Creating a file, by contrast, tells the truth: a missing path in an existing directory is created if and only if
      an inode is free, the name fits, and the directory has a free slot, or a free pointer and a block is clear. */
  lemma CreateExact(fs: Fs, path: seq<byte>, parent: nat)
    requires Tidy(fs) && 0 !in SplitPath(path).name && LookupPath(fs, path) == None
    requires LookupPath(fs, SplitPath(path).parent) == Some(parent) && Live(fs, parent) && IsDir(fs.inodes[parent])
    ensures CreateFile(fs, path).ok <==>
            && AllocInode(fs).ino != 0 && |SplitPath(path).name| <= 27
            && (HasSlot(fs, parent) || (HasPointer(fs, parent) && exists b :: 0 <= b < |fs.bused| && !fs.bused[b]))
  {
    var s := SplitPath(path);
    AbsentName(fs, path);
    if AllocInode(fs).ino != 0 && |s.name| <= 27 {
      var a := AllocInode(fs);
      FreshInodeKeeps(fs, MODE_REG, 1);
      var fs1 := PutInode(a.fs, a.ino, NewInode(MODE_REG, 1));
      SlotsKept(fs, fs1, a.ino, parent);
      FullExactly(fs1, parent, s.name, a.ino);
    }
  }
}
