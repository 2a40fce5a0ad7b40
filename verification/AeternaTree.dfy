/** The directory structure of AeternaFS: every entry names a live inode, a regular
    file has one entry, names are unique. Kept over every run in which no write
    names a directory, no file is used as a directory and only files are removed. */
module AeternaTree {
  import opened Bytes
  import opened Paths
  import opened AeternaModel
  import opened AeternaSound
  import opened AeternaDirs
  import opened AeternaFiles

  /** Slot `t` behind pointer `j` of directory `d` is in use. */
  ghost predicate Entry(fs: Fs, d: nat, j: nat, t: nat)
    requires Shape(fs)
  {
    && InTable(d) && IsDir(fs.inodes[d])
    && Reached(fs, fs.inodes[d].direct, j, t) && InoAt(fs, fs.inodes[d].direct, j, t) != 0
  }

  ghost function Ref(fs: Fs, d: nat, j: nat, t: nat): nat
    requires Shape(fs) && Entry(fs, d, j, t)
  {
    InoAt(fs, fs.inodes[d].direct, j, t)
  }

  ghost predicate Live(fs: Fs, v: nat)
    requires Shape(fs)
  {
    InTable(v) && fs.iused[v] && (IsReg(fs.inodes[v]) || IsDir(fs.inodes[v]))
  }

  ghost predicate EntryLive(fs: Fs, d: nat, j: nat, t: nat)
    requires Shape(fs)
  {
    Entry(fs, d, j, t) ==> Live(fs, Ref(fs, d, j, t))
  }

  /** Two entries for the same inode are one, unless that inode is a directory. */
  ghost predicate OneName(fs: Fs, d: nat, j: nat, t: nat, d': nat, j': nat, t': nat)
    requires Shape(fs)
  {
    (Entry(fs, d, j, t) && Entry(fs, d', j', t') && Ref(fs, d, j, t) == Ref(fs, d', j', t')
     && !(InTable(Ref(fs, d, j, t)) && IsDir(fs.inodes[Ref(fs, d, j, t)])))
    ==> d == d' && j == j' && t == t'
  }

  ghost predicate Linked(fs: Fs)
    requires Shape(fs)
  {
    && (forall d: nat, j: nat, t: nat :: EntryLive(fs, d, j, t))
    && (forall d: nat, j: nat, t: nat, d': nat, j': nat, t': nat :: OneName(fs, d, j, t, d', j', t'))
  }

  ghost predicate NamesUnique(fs: Fs, d: nat)
    requires Shape(fs)
  {
    InTable(d) && IsDir(fs.inodes[d]) ==> UniqueNames(fs, fs.inodes[d].direct)
  }

  ghost predicate Tidy(fs: Fs) {
    && Sound(fs) && Linked(fs)
    && (forall d: nat :: NamesUnique(fs, d))
    && fs.iused[INODE_ROOT] && IsDir(fs.inodes[INODE_ROOT])
  }

  /** Nothing refers to `v`. */
  ghost predicate Unnamed(fs: Fs, v: nat)
    requires Shape(fs)
  {
    forall d: nat, j: nat, t: nat :: Entry(fs, d, j, t) ==> Ref(fs, d, j, t) != v
  }

  // ---- Entries of kept directories -------------------------------------------------------

  lemma KeptEntry(fs: Fs, fs1: Fs, x: nat, d: nat, j: nat, t: nat)
    requires Keeps(fs, fs1, x) && d != x
    ensures Entry(fs1, d, j, t) == Entry(fs, d, j, t)
    ensures Entry(fs, d, j, t) ==> Ref(fs1, d, j, t) == Ref(fs, d, j, t)
  {
    if InTable(d) { KeptBlocks(fs, fs1, x, d); }
  }

  lemma KeptNames(fs: Fs, fs1: Fs, x: nat, d: nat)
    requires Keeps(fs, fs1, x) && d != x && NamesUnique(fs, d)
    ensures NamesUnique(fs1, d)
  {
    if InTable(d) && IsDir(fs.inodes[d]) {
      KeptBlocks(fs, fs1, x, d);
      var ds := fs.inodes[d].direct;
      assert forall j: nat, t: nat, n: Name :: Hit(fs1, ds, j, t, n) == Hit(fs, ds, j, t, n);
    }
  }

  /** A directory without blocks has no entries. */
  lemma NoBlocksNoEntries(fs: Fs, d: nat, j: nat, t: nat)
    requires Shape(fs) && InTable(d) && fs.inodes[d].direct[0] == 0
    ensures !Entry(fs, d, j, t) && NamesUnique(fs, d)
  {
  }

  /** `fs1` has the entries of `fs`, and what they name is as live as before. */
  ghost predicate SameTree(fs: Fs, fs1: Fs) {
    && Shape(fs) && Shape(fs1)
    && (forall d: nat, j: nat, t: nat :: SameEntry(fs, fs1, d, j, t))
    && (forall v: nat :: Live(fs, v) ==> Live(fs1, v) && IsDir(fs1.inodes[v]) == IsDir(fs.inodes[v]))
    && (forall d: nat :: NamesUnique(fs, d) ==> NamesUnique(fs1, d))
  }

  ghost predicate SameEntry(fs: Fs, fs1: Fs, d: nat, j: nat, t: nat)
    requires Shape(fs) && Shape(fs1)
  {
    && Entry(fs1, d, j, t) == Entry(fs, d, j, t)
    && (Entry(fs, d, j, t) ==> Ref(fs1, d, j, t) == Ref(fs, d, j, t))
  }

  lemma SameTreeTidy(fs: Fs, fs1: Fs)
    requires Tidy(fs) && Sound(fs1) && SameTree(fs, fs1)
    ensures Tidy(fs1)
  {
    forall d: nat, j: nat, t: nat ensures EntryLive(fs1, d, j, t) {
      assert SameEntry(fs, fs1, d, j, t) && EntryLive(fs, d, j, t);
    }
    forall d: nat, j: nat, t: nat, d': nat, j': nat, t': nat ensures OneName(fs1, d, j, t, d', j', t') {
      assert SameEntry(fs, fs1, d, j, t) && SameEntry(fs, fs1, d', j', t');
      assert EntryLive(fs, d, j, t) && OneName(fs, d, j, t, d', j', t');
    }
    forall d: nat ensures NamesUnique(fs1, d) { assert NamesUnique(fs, d); }
    assert Live(fs, INODE_ROOT);
  }

  /** Changing the contents of a file keeps the tree. */
  lemma FileChangeTidy(fs: Fs, fs1: Fs, x: nat)
    requires Tidy(fs) && Sound(fs1) && Keeps(fs, fs1, x) && fs1.iused == fs.iused
    requires InTable(x) ==> fs1.inodes[x].mode == fs.inodes[x].mode && !IsDir(fs.inodes[x])
    ensures Tidy(fs1)
  {
    forall d: nat, j: nat, t: nat ensures SameEntry(fs, fs1, d, j, t) {
      if d != x { KeptEntry(fs, fs1, x, d, j, t); }
    }
    forall d: nat | NamesUnique(fs, d) ensures NamesUnique(fs1, d) {
      if d != x { KeptNames(fs, fs1, x, d); }
    }
    SameTreeTidy(fs, fs1);
  }

  /** A newly initialised inode without blocks keeps the tree, and nothing names it. */
  lemma NewInodeTidy(fs: Fs, fs1: Fs, x: nat)
    requires Tidy(fs) && Sound(fs1) && Keeps(fs, fs1, x)
    requires InTable(x) && !fs.iused[x] && fs1.iused == fs.iused[x := true]
    requires fs1.inodes[x].direct[0] == 0
    ensures Tidy(fs1) && Unnamed(fs1, x)
  {
    forall d: nat, j: nat, t: nat ensures SameEntry(fs, fs1, d, j, t) {
      if d != x { KeptEntry(fs, fs1, x, d, j, t); } else { NoBlocksNoEntries(fs1, d, j, t); }
    }
    forall d: nat | NamesUnique(fs, d) ensures NamesUnique(fs1, d) {
      if d != x { KeptNames(fs, fs1, x, d); } else { NoBlocksNoEntries(fs1, d, 0, 0); }
    }
    SameTreeTidy(fs, fs1);
    forall d: nat, j: nat, t: nat | Entry(fs1, d, j, t) ensures Ref(fs1, d, j, t) != x {
      assert SameEntry(fs, fs1, d, j, t) && EntryLive(fs, d, j, t);
    }
  }

  // ---- Adding an entry ---------------------------------------------------------------------

  /** The hits of a directory determine its entries. */
  lemma EntryByHit(fs: Fs, d: nat, j: nat, t: nat)
    requires Shape(fs) && InTable(d) && IsDir(fs.inodes[d])
    ensures var ds := fs.inodes[d].direct;
            Entry(fs, d, j, t) <==> exists n: Name :: Hit(fs, ds, j, t, n)
  {
    var ds := fs.inodes[d].direct;
    if Entry(fs, d, j, t) { assert Hit(fs, ds, j, t, SlotName(BlockAt(fs, ds[j]), t)); }
  }

  lemma AddedEntries(fs: Fs, fs1: Fs, dir: nat, k: nat, s: nat, name: Name, child: nat, j: nat, t: nat)
    requires Shape(fs) && Shape(fs1) && InTable(dir) && IsDir(fs.inodes[dir]) && IsDir(fs1.inodes[dir]) && child != 0
    requires OneEntryMore(fs, fs.inodes[dir].direct, fs1, fs1.inodes[dir].direct, k, s, name, child)
    ensures !Entry(fs, dir, k, s) && Entry(fs1, dir, k, s) && Ref(fs1, dir, k, s) == child
    ensures (j, t) != (k, s) ==> SameEntry(fs, fs1, dir, j, t)
  {
    EntryByHit(fs, dir, k, s);
    EntryByHit(fs, dir, j, t);
    EntryByHit(fs1, dir, j, t);
  }

  /** The modes and marks of all inodes are the same. */
  ghost predicate SameKinds(fs: Fs, fs1: Fs)
    requires Shape(fs) && Shape(fs1)
  {
    fs1.iused == fs.iused && forall v :: InTable(v) ==> fs1.inodes[v].mode == fs.inodes[v].mode
  }

  /** `fs1` has the entries of `fs` and one more, at `(dir, k, s)`. */
  ghost predicate OneMoreInTree(fs: Fs, fs1: Fs, dir: nat, k: nat, s: nat, child: nat)
    requires Shape(fs) && Shape(fs1)
  {
    && !Entry(fs, dir, k, s) && Entry(fs1, dir, k, s) && Ref(fs1, dir, k, s) == child
    && forall d: nat, j: nat, t: nat :: (d, j, t) != (dir, k, s) ==> SameEntry(fs, fs1, d, j, t)
  }

  lemma OneMoreLinked(fs: Fs, fs1: Fs, dir: nat, k: nat, s: nat, child: nat)
    requires Shape(fs) && Shape(fs1) && Linked(fs) && SameKinds(fs, fs1)
    requires OneMoreInTree(fs, fs1, dir, k, s, child)
    requires Live(fs, child) && (IsDir(fs.inodes[child]) || Unnamed(fs, child))
    ensures Linked(fs1)
  {
    forall d: nat, j: nat, t: nat ensures EntryLive(fs1, d, j, t) {
      assert EntryLive(fs, d, j, t);
      if (d, j, t) != (dir, k, s) { assert SameEntry(fs, fs1, d, j, t); }
    }
    forall d: nat, j: nat, t: nat, d': nat, j': nat, t': nat ensures OneName(fs1, d, j, t, d', j', t') {
      assert OneName(fs, d, j, t, d', j', t');
      if (d, j, t) != (dir, k, s) { assert SameEntry(fs, fs1, d, j, t); }
      if (d', j', t') != (dir, k, s) { assert SameEntry(fs, fs1, d', j', t'); }
    }
  }

  /** Entering a live inode under a new name keeps the tree, unless it is a file that has a name already. */
  lemma AddTidy(fs: Fs, dir: nat, name: Name, child: u32)
    requires Tidy(fs) && Storable(name, child) && DirLookup(fs, dir, name) == None
    requires Live(fs, child) && (IsDir(fs.inodes[child]) || Unnamed(fs, child))
    ensures Tidy(DirAdd(fs, dir, name, child).fs) && SameKinds(fs, DirAdd(fs, dir, name, child).fs)
  {
    var r := DirAdd(fs, dir, name, child);
    DirAddSound(fs, dir, name, child);
    DirAddShape(fs, dir, name, child);
    if r.ok {
      var k, s := DirAddPlace(fs, dir, name, child);
      DirAddKeeps(fs, dir, name, child);
      AddedEntries(fs, r.fs, dir, k, s, name, child, k, s);
      forall d: nat, j: nat, t: nat | (d, j, t) != (dir, k, s) ensures SameEntry(fs, r.fs, d, j, t) {
        if d != dir { KeptEntry(fs, r.fs, dir, d, j, t); } else { AddedEntries(fs, r.fs, dir, k, s, name, child, j, t); }
      }
      AddKinds(fs, dir, name, child);
      OneMoreLinked(fs, r.fs, dir, k, s, child);
      forall d: nat ensures NamesUnique(r.fs, d) {
        assert NamesUnique(fs, d) && NamesUnique(fs, dir);
        if d != dir { KeptNames(fs, r.fs, dir, d); } else { DirAddUnique(fs, dir, name, child); }
      }
    }
  }

  lemma AddKinds(fs: Fs, dir: nat, name: Name, child: u32)
    requires Sound(fs)
    ensures Shape(DirAdd(fs, dir, name, child).fs) && SameKinds(fs, DirAdd(fs, dir, name, child).fs)
  {
    DirAddShape(fs, dir, name, child);
  }

  // ---- What paths resolve to -----------------------------------------------------------------

  lemma LookupEntry(fs: Fs, d: nat, name: Name) returns (j: nat, t: nat)
    requires Shape(fs) && DirLookup(fs, d, name).Some?
    ensures InTable(d) && IsDir(fs.inodes[d]) && Hit(fs, fs.inodes[d].direct, j, t, name)
    ensures Entry(fs, d, j, t) && Ref(fs, d, j, t) == DirLookup(fs, d, name).value
  {
    var ds := fs.inodes[d].direct;
    DirFindFirst(fs, ds, name);
    var p := DirFind(fs, ds, 0, name);
    j, t := p.k, p.slot;
    FoundAt(fs, d, name, j, t);
  }

  lemma {:induction false} WalkLive(fs: Fs, ino: nat, comps: seq<Name>)
    requires Tidy(fs) && Live(fs, ino)
    ensures var r := Walk(fs, ino, comps); r.Some? ==> Live(fs, r.value)
    decreases |comps|
  {
    if comps != [] && DirLookup(fs, ino, comps[0]).Some? {
      var j, t := LookupEntry(fs, ino, comps[0]);
      assert EntryLive(fs, ino, j, t);
      WalkLive(fs, DirLookup(fs, ino, comps[0]).value, comps[1..]);
    }
  }

  /** In a tidy filesystem a path names nothing, a directory or a regular file. */
  lemma PathsAreLive(fs: Fs, path: seq<byte>)
    requires Tidy(fs)
    ensures var t := LookupPath(fs, path); t.Some? ==> Live(fs, t.value)
  {
    WalkLive(fs, INODE_ROOT, Components(path));
  }

  // ---- write_file ------------------------------------------------------------------------------

  lemma FillTidy(fs: Fs, ino: nat, data: seq<byte>)
    requires Tidy(fs) && |data| < 0x1_0000_0000_0000_0000
    requires InTable(ino) ==> !IsDir(fs.inodes[ino])
    ensures Tidy(Fill(fs, ino, data).fs)
  {
    FillKeeps(fs, ino, data);
    FillSound(fs, ino, data);
    FileChangeTidy(fs, Fill(fs, ino, data).fs, ino);
  }

  lemma TruncateTidy(fs: Fs, ino: nat)
    requires Tidy(fs) && (InTable(ino) ==> !IsDir(fs.inodes[ino]))
    ensures Tidy(Truncate(fs, ino)) && (InTable(ino) ==> !IsDir(Truncate(fs, ino).inodes[ino]))
  {
    TruncateKeeps(fs, ino);
    TruncateSound(fs, ino);
    FileChangeTidy(fs, Truncate(fs, ino), ino);
  }

  lemma FreshTidy(fs: Fs, mode: u16, nlinks: u16)
    requires Tidy(fs) && AllocInode(fs).ino != 0 && (mode == MODE_REG || mode == MODE_DIR)
    ensures var a := AllocInode(fs); var fs1 := PutInode(a.fs, a.ino, NewInode(mode, nlinks));
            Tidy(fs1) && InTable(a.ino) && Unnamed(fs1, a.ino) && Live(fs1, a.ino) && Keeps(fs, fs1, a.ino)
  {
    FreshInodeKeeps(fs, mode, nlinks);
    var a := AllocInode(fs);
    NewInodeTidy(fs, PutInode(a.fs, a.ino, NewInode(mode, nlinks)), a.ino);
  }

  lemma CreateTidy(fs: Fs, path: seq<byte>)
    requires Tidy(fs) && LookupPath(fs, path) == None && 0 !in SplitPath(path).name
    ensures var c := CreateFile(fs, path);
            Tidy(c.fs) && (c.ok ==> InTable(c.ino) && !IsDir(c.fs.inodes[c.ino]))
  {
    var s := SplitPath(path);
    var p := LookupPath(fs, s.parent);
    var a := AllocInode(fs);
    if p.Some? && a.ino != 0 {
      LookupThroughParent(fs, path);
      SplitIsLastComponent(path);
      FreshTidy(fs, MODE_REG, 1);
      FreshInodeKeeps(fs, MODE_REG, 1);
      var fs1 := PutInode(a.fs, a.ino, NewInode(MODE_REG, 1));
      EntriesAroundFile(fs, fs1, a.ino);
      assert DirLookup(fs1, p.value, s.name) == None;
      if |s.name| <= 27 { AddTidy(fs1, p.value, s.name, a.ino); }
    }
  }

  lemma WriteTidy(fs: Fs, path: seq<byte>, data: seq<byte>)
    requires Tidy(fs) && |data| < 0x1_0000_0000_0000_0000 && 0 !in SplitPath(path).name
    requires var t := LookupPath(fs, path); t.Some? && InTable(t.value) ==> !IsDir(fs.inodes[t.value])
    ensures Tidy(WriteFile(fs, path, data).fs)
  {
    match LookupPath(fs, path)
    case Some(ino) =>
      TruncateTidy(fs, ino);
      FillTidy(Truncate(fs, ino), ino, data);
    case None =>
      CreateTidy(fs, path);
      var c := CreateFile(fs, path);
      if c.ok { FillTidy(c.fs, c.ino, data); }
  }

  // ---- mkdir -------------------------------------------------------------------------------------

  /** Entries and file contents of `fs` are all still there in `fs1`. */
  ghost predicate Grows(fs: Fs, fs1: Fs) {
    && Shape(fs) && Shape(fs1)
    && (forall i: nat, n: Name :: DirLookup(fs, i, n).Some? ==> DirLookup(fs1, i, n) == DirLookup(fs, i, n))
    && (forall i: nat :: ReadInode(fs, i).Some? ==> ReadInode(fs1, i) == ReadInode(fs, i))
  }

  lemma {:induction false} WalkGrows(fs: Fs, fs1: Fs, ino: nat, comps: seq<Name>)
    requires Grows(fs, fs1)
    ensures Walk(fs, ino, comps).Some? ==> Walk(fs1, ino, comps) == Walk(fs, ino, comps)
    decreases |comps|
  {
    if comps != [] && DirLookup(fs, ino, comps[0]).Some? {
      WalkGrows(fs, fs1, DirLookup(fs, ino, comps[0]).value, comps[1..]);
    }
  }

  lemma FreshGrows(fs: Fs, mode: u16, nlinks: u16)
    requires Sound(fs) && AllocInode(fs).ino != 0
    ensures var a := AllocInode(fs); Grows(fs, PutInode(a.fs, a.ino, NewInode(mode, nlinks)))
  {
    FreshInodeKeeps(fs, mode, nlinks);
    var a := AllocInode(fs);
    var fs1 := PutInode(a.fs, a.ino, NewInode(mode, nlinks));
    forall i: nat, n: Name | DirLookup(fs, i, n).Some? ensures DirLookup(fs1, i, n) == DirLookup(fs, i, n) {
      KeptLookup(fs, fs1, a.ino, i, n);
    }
    forall i: nat | ReadInode(fs, i).Some? ensures ReadInode(fs1, i) == ReadInode(fs, i) {
      KeptRead(fs, fs1, a.ino, i);
    }
  }

  lemma AddGrows(fs: Fs, dir: nat, name: Name, child: u32)
    requires Sound(fs) && Storable(name, child) && DirLookup(fs, dir, name) == None
    ensures Grows(fs, DirAdd(fs, dir, name, child).fs)
  {
    var fs1 := DirAdd(fs, dir, name, child).fs;
    DirAddKeeps(fs, dir, name, child);
    if DirAdd(fs, dir, name, child).ok { DirAddInserts(fs, dir, name, child); }
    forall i: nat, n: Name | DirLookup(fs, i, n).Some? ensures DirLookup(fs1, i, n) == DirLookup(fs, i, n) {
      if i != dir { KeptLookup(fs, fs1, dir, i, n); }
    }
    forall i: nat | ReadInode(fs, i).Some? ensures ReadInode(fs1, i) == ReadInode(fs, i) {
      if i != dir { KeptRead(fs, fs1, dir, i); } else { NotAFile(fs, dir, name, child); }
    }
  }

  /** Adding to `dir` leaves lookups of other names, and in other directories, alone. */
  lemma AddElsewhere(fs: Fs, dir: nat, name: Name, child: u32, i: nat, n: Name)
    requires Sound(fs) && Storable(name, child) && DirLookup(fs, dir, name) == None
    requires i != dir || n != name
    ensures Shape(DirAdd(fs, dir, name, child).fs)
    ensures DirLookup(DirAdd(fs, dir, name, child).fs, i, n) == DirLookup(fs, i, n)
  {
    DirAddKeeps(fs, dir, name, child);
    if i != dir { KeptLookup(fs, DirAdd(fs, dir, name, child).fs, dir, i, n); }
    else if DirAdd(fs, dir, name, child).ok { DirAddInserts(fs, dir, name, child); }
  }

  lemma GrowsTrans(fs: Fs, fs1: Fs, fs2: Fs)
    requires Grows(fs, fs1) && Grows(fs1, fs2)
    ensures Grows(fs, fs2)
  {
  }

  /** The new directory with its "." and ".." entries, before it gets a name. */
  ghost function NewDir(fs: Fs, parent: nat): (r: Fs)
    requires Shape(fs) && AllocInode(fs).ino != 0 && parent < 0x1_0000_0000
    ensures Shape(r)
  {
    var a := AllocInode(fs);
    ShapeKept(fs);
    var fs1 := PutInode(a.fs, a.ino, NewInode(MODE_DIR, 2));
    DirAddShape(fs1, a.ino, [DOT], a.ino);
    var fs2 := DirAdd(fs1, a.ino, [DOT], a.ino).fs;
    DirAddShape(fs2, a.ino, [DOT, DOT], parent);
    DirAdd(fs2, a.ino, [DOT, DOT], parent).fs
  }

  /** An empty directory answers no name. */
  lemma EmptyDir(fs: Fs, x: nat, n: Name)
    requires Shape(fs) && InTable(x) && fs.inodes[x].direct[0] == 0
    ensures DirLookup(fs, x, n) == None
  {
  }

  /** A directory whose only entries are "." and "..". */
  ghost predicate JustMade(fs: Fs, v: nat)
    requires Shape(fs)
  {
    && InTable(v) && IsDir(fs.inodes[v])
    && forall n: Name :: n != [DOT] && n != [DOT, DOT] ==> DirLookup(fs, v, n) == None
  }

  lemma NewDirSpec(fs: Fs, parent: nat, name: Name)
    requires Tidy(fs) && AllocInode(fs).ino != 0
    requires Live(fs, parent) && IsDir(fs.inodes[parent]) && DirLookup(fs, parent, name) == None
    ensures var x := AllocInode(fs).ino; var fs3 := NewDir(fs, parent);
            && Tidy(fs3) && Grows(fs, fs3) && InTable(x) && x != parent
            && Live(fs3, x) && JustMade(fs3, x) && DirLookup(fs3, parent, name) == None
  {
    var a := AllocInode(fs);
    var x := a.ino;
    var fs1 := PutInode(a.fs, x, NewInode(MODE_DIR, 2));
    FreshTidy(fs, MODE_DIR, 2);
    FreshGrows(fs, MODE_DIR, 2);
    KeptLookup(fs, fs1, x, parent, name);
    EmptyDir(fs1, x, [DOT]);
    EmptyDir(fs1, x, [DOT, DOT]);
    AddTidy(fs1, x, [DOT], x);
    AddGrows(fs1, x, [DOT], x);
    AddElsewhere(fs1, x, [DOT], x, x, [DOT, DOT]);
    AddElsewhere(fs1, x, [DOT], x, parent, name);
    var fs2 := DirAdd(fs1, x, [DOT], x).fs;
    AddTidy(fs2, x, [DOT, DOT], parent);
    AddGrows(fs2, x, [DOT, DOT], parent);
    AddElsewhere(fs2, x, [DOT, DOT], parent, parent, name);
    forall n: Name | n != [DOT] && n != [DOT, DOT] ensures DirLookup(NewDir(fs, parent), x, n) == None {
      EmptyDir(fs1, x, n);
      AddElsewhere(fs1, x, [DOT], x, x, n);
      AddElsewhere(fs2, x, [DOT, DOT], parent, x, n);
    }
    GrowsTrans(fs, fs1, fs2);
    GrowsTrans(fs, fs2, NewDir(fs, parent));
  }

  /** Naming the new directory. */
  lemma NameNewDir(fs: Fs, parent: nat, name: Name)
    requires Tidy(fs) && AllocInode(fs).ino != 0 && 0 < |name| && 0 !in name
    requires Live(fs, parent) && IsDir(fs.inodes[parent]) && DirLookup(fs, parent, name) == None
    ensures var x := AllocInode(fs).ino; var a := DirAdd(NewDir(fs, parent), parent, name, x);
            && Tidy(a.fs) && Grows(fs, a.fs)
            && (if a.ok then DirLookup(a.fs, parent, name) == Some(x) && JustMade(a.fs, x)
                else DirLookup(a.fs, parent, name) == None)
  {
    var x := AllocInode(fs).ino;
    var fs3 := NewDir(fs, parent);
    NewDirSpec(fs, parent, name);
    if |name| <= 27 {
      var r := DirAdd(fs3, parent, name, x);
      AddTidy(fs3, parent, name, x);
      AddGrows(fs3, parent, name, x);
      GrowsTrans(fs, fs3, r.fs);
      if r.ok { DirAddInserts(fs3, parent, name, x); }
      forall n: Name | n != [DOT] && n != [DOT, DOT] ensures DirLookup(r.fs, x, n) == None {
        AddElsewhere(fs3, parent, name, x, x, n);
      }
    }
  }

  lemma MkdirInSpec(fs: Fs, path: seq<byte>, parent: nat)
    requires Tidy(fs) && 0 !in SplitPath(path).name && Components(path) != []
    requires LookupPath(fs, SplitPath(path).parent) == Some(parent)
    requires Live(fs, parent) && IsDir(fs.inodes[parent])
    ensures var r := MkdirIn(fs, path, parent);
            && Tidy(r.fs) && Grows(fs, r.fs)
            && (LookupPath(fs, path) == None && LookupPath(r.fs, path).Some?
                ==> JustMade(r.fs, LookupPath(r.fs, path).value))
  {
    var s := SplitPath(path);
    if LookupPath(fs, path) == None && AllocInode(fs).ino != 0 {
      AbsentName(fs, path);
      NameNewDir(fs, parent, s.name);
      var r := MkdirIn(fs, path, parent);
      assert r.fs == DirAdd(NewDir(fs, parent), parent, s.name, AllocInode(fs).ino).fs;
      LookupThroughParent(r.fs, path);
      WalkGrows(fs, r.fs, INODE_ROOT, Components(s.parent));
    }
  }

  /** No proper prefix of the path names a regular file, and no component is ".", ".." or carries a NUL. */
  ghost predicate ThroughDirs(fs: Fs, comps: seq<Name>)
    requires Shape(fs)
  {
    && (forall n: nat :: n < |comps| ==>
          var t := Walk(fs, INODE_ROOT, comps[..n]); t.Some? && InTable(t.value) ==> IsDir(fs.inodes[t.value]))
    && (forall n :: 0 <= n < |comps| ==> 0 !in comps[n] && comps[n] != [DOT] && comps[n] != [DOT, DOT])
  }

  lemma ParentThroughDirs(fs: Fs, comps: seq<Name>)
    requires Shape(fs) && comps != [] && ThroughDirs(fs, comps)
    ensures ThroughDirs(fs, comps[..|comps| - 1])
    ensures var t := Walk(fs, INODE_ROOT, comps[..|comps| - 1]); t.Some? && InTable(t.value) ==> IsDir(fs.inodes[t.value])
  {
    var init := comps[..|comps| - 1];
    forall n: nat | n < |init|
      ensures var t := Walk(fs, INODE_ROOT, init[..n]); t.Some? && InTable(t.value) ==> IsDir(fs.inodes[t.value])
    {
      assert init[..n] == comps[..n];
    }
  }

  /** What a mkdir promises: the tree is kept, nothing is lost, a new path names a new directory. */
  ghost predicate MkdirGood(fs: Fs, path: seq<byte>, fs1: Fs) {
    && Tidy(fs) && Tidy(fs1) && Grows(fs, fs1)
    && (LookupPath(fs, path) == None && LookupPath(fs1, path).Some? ==> JustMade(fs1, LookupPath(fs1, path).value))
  }

  /** A name below a directory that does not exist, or has just been made, does not exist. */
  lemma BelowJustMade(fs: Fs, path: seq<byte>, m: Fs)
    requires Components(path) != [] && MkdirGood(fs, SplitPath(path).parent, m)
    requires LookupPath(fs, SplitPath(path).parent) == None
    requires SplitPath(path).name != [DOT] && SplitPath(path).name != [DOT, DOT]
    ensures LookupPath(m, path) == None
    ensures MkdirGood(fs, path, m)
  {
    LookupThroughParent(m, path);
  }

  lemma MkdirStep(fs: Fs, path: seq<byte>, m: Fs, parent: nat)
    requires Components(path) != [] && MkdirGood(fs, SplitPath(path).parent, m)
    requires LookupPath(fs, SplitPath(path).parent) == None && LookupPath(m, SplitPath(path).parent) == Some(parent)
    requires SplitPath(path).name != [DOT] && SplitPath(path).name != [DOT, DOT] && 0 !in SplitPath(path).name
    ensures parent < 0x1_0000_0000 && MkdirGood(fs, path, MkdirIn(m, path, parent).fs)
  {
    BelowJustMade(fs, path, m);
    PathsAreLive(m, SplitPath(path).parent);
    MkdirInSpec(m, path, parent);
    GrowsTrans(fs, m, MkdirIn(m, path, parent).fs);
  }

  lemma {:induction false} MkdirSpec(fs: Fs, path: seq<byte>)
    requires Tidy(fs) && ThroughDirs(fs, Components(path))
    ensures MkdirGood(fs, path, Mkdir(fs, path).fs)
    decreases |Components(path)|
  {
    var s := SplitPath(path);
    var comps := Components(path);
    SplitIsLastComponent(path);
    if s.name != [] {
      assert comps[..|comps| - 1] == Components(s.parent) && comps[|comps| - 1] == s.name;
      ParentThroughDirs(fs, comps);
      PathsAreLive(fs, s.parent);
      match LookupPath(fs, s.parent)
      case Some(parent) => MkdirInSpec(fs, path, parent);
      case None =>
        MkdirSpec(fs, s.parent);
        var m := Mkdir(fs, s.parent);
        BelowJustMade(fs, path, m.fs);
        if m.ok && LookupPath(m.fs, s.parent).Some? {
          MkdirStep(fs, path, m.fs, LookupPath(m.fs, s.parent).value);
        }
    }
  }

  // ---- remove --------------------------------------------------------------------------------------

  /** The entry `name` in `dir`, the only one that named `ino`, is gone; `ino` is no directory. */
  ghost predicate LeafGone(fs: Fs, fs1: Fs, dir: nat, name: Name, ino: nat) {
    && |fs.inodes| == MAX_INODES == |fs1.inodes|
    && (forall n: Name :: DirLookup(fs, ino, n) == None)
    && (forall i: nat, n: Name :: DirLookup(fs, i, n) == Some(ino) <==> i == dir && n == name)
    && (forall i: nat, n: Name :: DirLookup(fs1, i, n) == if i == dir && n == name then None else DirLookup(fs, i, n))
  }

  lemma {:induction false} WalkLeafGone(fs: Fs, fs1: Fs, dir: nat, name: Name, ino: nat, i: nat, comps: seq<Name>)
    requires LeafGone(fs, fs1, dir, name, ino) && i != ino
    ensures Walk(fs1, i, comps) == if Walk(fs, i, comps) == Some(ino) then None else Walk(fs, i, comps)
    decreases |comps|
  {
    if comps != [] && DirLookup(fs, i, comps[0]).Some? {
      var next := DirLookup(fs, i, comps[0]).value;
      if next != ino { WalkLeafGone(fs, fs1, dir, name, ino, next, comps[1..]); }
    }
  }

  /** A regular file of a tidy filesystem has one name in one directory. */
  lemma OnlyName(fs: Fs, dir: nat, name: Name, ino: nat, i: nat, n: Name)
    requires Tidy(fs) && InTable(ino) && IsReg(fs.inodes[ino])
    requires DirLookup(fs, dir, name) == Some(ino) && DirLookup(fs, i, n) == Some(ino)
    ensures i == dir && n == name
  {
    var j, t := LookupEntry(fs, dir, name);
    var j', t' := LookupEntry(fs, i, n);
    assert OneName(fs, dir, j, t, i, j', t');
  }

  lemma ReleaseKeeps(fs: Fs, ino: nat)
    requires Sound(fs) && InTable(ino)
    ensures var fs1 := Release(fs, ino);
            && Keeps(fs, fs1, ino) && fs1.iused == fs.iused[ino := false] && fs1.inodes[ino].mode == MODE_FREE
  {
    FreeAllKeeps(fs, fs.inodes[ino].direct, 0);
    MarkedKeeps(fs, Release(fs, ino), ino);
  }

  /** The two states after the inode is released and after its entry is dropped. */
  lemma RemoveSteps(fs: Fs, path: seq<byte>, ino: nat) returns (dir: nat)
    requires Tidy(fs) && LookupPath(fs, path) == Some(ino) && InTable(ino) && IsReg(fs.inodes[ino])
    ensures var s := SplitPath(path); var fs1 := Release(fs, ino); var fs2 := Remove(fs, path).fs;
            && Sound(fs1) && SameEntries(fs, fs1) && InTable(dir) && dir != ino
            && LookupPath(fs, s.parent) == Some(dir) && DirLookup(fs, dir, s.name) == Some(ino)
            && fs2 == DirRemove(fs1, dir, s.name).fs && Remove(fs, path).ok
            && IsDir(fs.inodes[dir]) && UniqueNames(fs1, fs.inodes[dir].direct)
  {
    var s := SplitPath(path);
    assert Components(path) != [];
    LookupThroughParent(fs, path);
    dir := LookupPath(fs, s.parent).value;
    var j, t := LookupEntry(fs, dir, s.name);
    ReleaseSound(fs, ino);
    ReleaseKeeps(fs, ino);
    var fs1 := Release(fs, ino);
    EntriesAroundFile(fs, fs1, ino);
    SameWalk(fs, fs1, INODE_ROOT, Components(s.parent));
    assert NamesUnique(fs, dir);
    KeptNames(fs, fs1, ino, dir);
  }

  lemma RemoveLeaf(fs: Fs, path: seq<byte>, ino: nat) returns (dir: nat)
    requires Tidy(fs) && LookupPath(fs, path) == Some(ino) && InTable(ino) && IsReg(fs.inodes[ino])
    ensures Remove(fs, path).ok && LeafGone(fs, Remove(fs, path).fs, dir, SplitPath(path).name, ino)
    ensures Keeps(Release(fs, ino), Remove(fs, path).fs, dir)
    ensures InTable(dir) && IsDir(fs.inodes[dir]) && DirLookup(fs, dir, SplitPath(path).name) == Some(ino)
  {
    dir := RemoveSteps(fs, path, ino);
    var s := SplitPath(path);
    var fs1 := Release(fs, ino);
    var fs2 := Remove(fs, path).fs;
    ReleaseKeeps(fs, ino);
    DirRemoveDeletes(fs1, dir, s.name);
    DirRemoveKeeps(fs1, dir, s.name);
    forall i: nat, n: Name
      ensures DirLookup(fs2, i, n) == if i == dir && n == s.name then None else DirLookup(fs, i, n)
      ensures DirLookup(fs, i, n) == Some(ino) <==> i == dir && n == s.name
    {
      assert DirLookup(fs1, i, n) == DirLookup(fs, i, n);
      if i != dir { KeptLookup(fs1, fs2, dir, i, n); }
      if DirLookup(fs, i, n) == Some(ino) { OnlyName(fs, dir, s.name, ino, i, n); }
    }
  }

  /** Other inodes read the same after a removal. */
  lemma RemoveReads(fs: Fs, path: seq<byte>, ino: nat, i: nat)
    requires Tidy(fs) && LookupPath(fs, path) == Some(ino) && InTable(ino) && IsReg(fs.inodes[ino]) && i != ino
    ensures ReadInode(Remove(fs, path).fs, i) == ReadInode(fs, i)
  {
    var dir := RemoveLeaf(fs, path, ino);
    var fs1 := Release(fs, ino);
    var fs2 := Remove(fs, path).fs;
    ReleaseKeeps(fs, ino);
    KeptRead(fs, fs1, ino, i);
    if i != dir {
      KeptRead(fs1, fs2, dir, i);
    } else {
      var d := RemoveSteps(fs, path, ino);
      DirRemoveShape(fs1, d, SplitPath(path).name);
    }
  }

  /** Removing a regular file takes away exactly the paths that resolved to it: every other
      path resolves as before and every other file reads as before. */
  lemma RemoveSpec(fs: Fs, path: seq<byte>, q: seq<byte>)
    requires Tidy(fs)
    requires var t := LookupPath(fs, path); t.Some? && InTable(t.value) && IsReg(fs.inodes[t.value])
    ensures var r := Remove(fs, path);
            && r.ok
            && LookupPath(r.fs, q) == (if LookupPath(fs, q) == LookupPath(fs, path) then None else LookupPath(fs, q))
            && ReadFile(r.fs, q) == (if LookupPath(fs, q) == LookupPath(fs, path) then None else ReadFile(fs, q))
  {
    var ino := LookupPath(fs, path).value;
    var dir := RemoveLeaf(fs, path, ino);
    WalkLeafGone(fs, Remove(fs, path).fs, dir, SplitPath(path).name, ino, INODE_ROOT, Components(q));
    var t := LookupPath(fs, q);
    if t.Some? && t.value != ino { RemoveReads(fs, path, ino, t.value); }
  }

  /** `fs1` has the entries of `fs` but the one at `(dir, k, s)`, and `ino` is no longer live. */
  lemma OneLessLinked(fs: Fs, fs1: Fs, dir: nat, k: nat, s: nat, ino: nat)
    requires Shape(fs) && Shape(fs1) && Linked(fs) && InTable(ino) && !IsDir(fs.inodes[ino])
    requires fs1.iused == fs.iused[ino := false]
    requires forall v :: InTable(v) && v != ino ==> fs1.inodes[v].mode == fs.inodes[v].mode
    requires Entry(fs, dir, k, s) && Ref(fs, dir, k, s) == ino && !Entry(fs1, dir, k, s)
    requires forall d: nat, j: nat, t: nat :: (d, j, t) != (dir, k, s) ==> SameEntry(fs, fs1, d, j, t)
    ensures Linked(fs1)
  {
    forall d: nat, j: nat, t: nat ensures EntryLive(fs1, d, j, t) {
      assert EntryLive(fs, d, j, t) && OneName(fs, d, j, t, dir, k, s);
      if (d, j, t) != (dir, k, s) { assert SameEntry(fs, fs1, d, j, t); }
    }
    forall d: nat, j: nat, t: nat, d': nat, j': nat, t': nat ensures OneName(fs1, d, j, t, d', j', t') {
      assert OneName(fs, d, j, t, d', j', t') && OneName(fs, d, j, t, dir, k, s);
      if (d, j, t) != (dir, k, s) { assert SameEntry(fs, fs1, d, j, t); }
      if (d', j', t') != (dir, k, s) { assert SameEntry(fs, fs1, d', j', t'); }
    }
  }

  /** The entries left in the directory the file was removed from. */
  lemma RemovedEntries(fs1: Fs, fs2: Fs, dir: nat, k: nat, s: nat, name: Name, j: nat, t: nat)
    requires Shape(fs1) && Shape(fs2) && InTable(dir) && IsDir(fs1.inodes[dir]) && fs2.inodes == fs1.inodes
    requires Hit(fs1, fs1.inodes[dir].direct, k, s, name)
    requires OneEntryLess(fs1, fs2, fs1.inodes[dir].direct, k, s)
    ensures Entry(fs1, dir, k, s) && !Entry(fs2, dir, k, s)
    ensures (j, t) != (k, s) ==> SameEntry(fs1, fs2, dir, j, t)
  {
    EntryByHit(fs2, dir, k, s);
    EntryByHit(fs1, dir, j, t);
    EntryByHit(fs2, dir, j, t);
  }

  lemma RemoveTidy(fs: Fs, path: seq<byte>)
    requires Tidy(fs)
    requires var t := LookupPath(fs, path); t.Some? && InTable(t.value) && IsReg(fs.inodes[t.value])
    ensures Tidy(Remove(fs, path).fs)
  {
    var ino := LookupPath(fs, path).value;
    var s := SplitPath(path);
    var dir := RemoveSteps(fs, path, ino);
    var fs1 := Release(fs, ino);
    var fs2 := Remove(fs, path).fs;
    ReleaseKeeps(fs, ino);
    RemoveSound(fs, path);
    DirRemoveKeeps(fs1, dir, s.name);
    assert DirLookup(fs1, dir, s.name) == Some(ino);
    var k, sl := DirRemovePlace(fs1, dir, s.name);
    RemovedEntries(fs1, fs2, dir, k, sl, s.name, k, sl);
    forall d: nat, j: nat, t: nat | (d, j, t) != (dir, k, sl) ensures SameEntry(fs, fs2, d, j, t) {
      if d != ino { KeptEntry(fs, fs1, ino, d, j, t); }
      if d != dir { KeptEntry(fs1, fs2, dir, d, j, t); } else { RemovedEntries(fs1, fs2, dir, k, sl, s.name, j, t); }
    }
    RemovedRef(fs, fs1, dir, ino, s.name, k, sl);
    OneLessLinked(fs, fs2, dir, k, sl, ino);
    DirRemoveDeletes(fs1, dir, s.name);
    forall d: nat ensures NamesUnique(fs2, d) {
      assert NamesUnique(fs, d);
      if d != ino { KeptNames(fs, fs1, ino, d); }
      if d != dir { KeptNames(fs1, fs2, dir, d); }
    }
  }

  /** The entry that is dropped named the removed inode. */
  lemma RemovedRef(fs: Fs, fs1: Fs, dir: nat, ino: nat, name: Name, k: nat, s: nat)
    requires Tidy(fs) && Keeps(fs, fs1, ino) && InTable(dir) && dir != ino && IsDir(fs.inodes[dir])
    requires DirLookup(fs, dir, name) == Some(ino) && Hit(fs1, fs1.inodes[dir].direct, k, s, name)
    ensures Entry(fs, dir, k, s) && Ref(fs, dir, k, s) == ino
  {
    KeptBlocks(fs, fs1, ino, dir);
    assert Hit(fs, fs.inodes[dir].direct, k, s, name);
    var j, t := LookupEntry(fs, dir, name);
    assert NamesUnique(fs, dir);
  }

  // ---- Whole runs ------------------------------------------------------------------------------------

  /** Writes name no directory, removals name a regular file, mkdir does not go through a file. */
  ghost predicate InScope(fs: Fs, op: Op)
    requires Shape(fs)
  {
    match op
    case MkdirOp(path) => ThroughDirs(fs, Components(path))
    case RemoveOp(path) =>
      var t := LookupPath(fs, path); t.Some? && InTable(t.value) && IsReg(fs.inodes[t.value])
    case TouchOp(path) => 0 !in SplitPath(path).name
    case _ =>
      && 0 !in SplitPath(op.path).name
      && var t := LookupPath(fs, op.path); t.Some? && InTable(t.value) ==> !IsDir(fs.inodes[t.value])
  }

  lemma ApplyTidy(fs: Fs, op: Op)
    requires Tidy(fs) && Fits(fs, op) && InScope(fs, op)
    ensures Tidy(Apply(fs, op).fs)
  {
    match op
    case WriteOp(path, data) => WriteTidy(fs, path, data);
    case AppendOp(path, data) => WriteTidy(fs, path, OldContents(fs, path) + data);
    case WriteAtOp(path, offset, data) => WriteTidy(fs, path, Overlay(OldContents(fs, path), offset, data));
    case TouchOp(path) => if LookupPath(fs, path) == None { WriteTidy(fs, path, []); }
    case MkdirOp(path) => MkdirSpec(fs, path);
    case RemoveOp(path) => RemoveTidy(fs, path);
  }

  lemma FormattedTidy(ss: nat, blocks: seq<seq<byte>>)
    requires 64 <= ss < 0x1_0000_0000 && ss % 32 == 0 && 0 < |blocks| <= MAX_BLOCKS
    requires forall b :: 0 <= b < |blocks| ==> |blocks[b]| == ss
    ensures Tidy(Formatted(ss, blocks))
  {
    FormattedSound(ss, blocks);
    var fs := Formatted(ss, blocks);
    forall d: nat, j: nat, t: nat ensures !Entry(fs, d, j, t) {
      if InTable(d) { NoBlocksNoEntries(fs, d, j, t); }
    }
    forall d: nat ensures NamesUnique(fs, d) {
      if InTable(d) { NoBlocksNoEntries(fs, d, 0, 0); }
    }
  }

  /** From a formatted disk, in every state of every run in scope: each path names nothing, a
      directory or a live regular file, and a regular file is entered under one name only. */
  lemma {:induction false} TreeOverRuns(trace: seq<Fs>, ops: seq<Op>, n: nat, path: seq<byte>)
    requires IsRun(trace, ops) && n < |trace| && Tidy(trace[0])
    requires forall m :: 0 <= m < n ==> InScope(trace[m], ops[m])
    ensures Tidy(trace[n])
    ensures var t := LookupPath(trace[n], path); t.Some? ==> Live(trace[n], t.value)
  {
    if n > 0 {
      TreeOverRuns(trace, ops, n - 1, path);
      ApplyTidy(trace[n - 1], ops[n - 1]);
      assert trace[n - 1 + 1] == Apply(trace[n - 1], ops[n - 1]).fs;
    }
    PathsAreLive(trace[n], path);
  }

  // ---- A first file ------------------------------------------------------------------------------

  lemma OneComponent(name: Name)
    requires |name| > 0 && SLASH !in name
    ensures Components([SLASH] + name) == [name]
  {
    assert ([SLASH] + name)[1..] == name;
    ComponentsOfName(name);
  }

  lemma EmptyRoot(fs: Fs, path: seq<byte>, name: Name)
    requires Shape(fs) && fs.inodes[INODE_ROOT].direct[0] == 0 && Components(path) == [name]
    ensures LookupPath(fs, path) == None && SplitPath(path).name == name
    ensures LookupPath(fs, SplitPath(path).parent) == Some(INODE_ROOT)
  {
    SplitIsLastComponent(path);
    assert DirLookup(fs, INODE_ROOT, name) == None;
  }

  /** On a freshly formatted disk with at least one block left, a first file can be made in the root directory, and it
      reads as written. */
  lemma FirstFile(ss: nat, blocks: seq<seq<byte>>, name: Name)
    requires 64 <= ss < 0x1_0000_0000 && ss % 32 == 0 && 2 <= |blocks| <= MAX_BLOCKS
    requires forall b :: 0 <= b < |blocks| ==> |blocks[b]| == ss
    requires 0 < |name| <= 27 && SLASH !in name && 0 !in name
    ensures var r := WriteFile(Formatted(ss, blocks), [SLASH] + name, []);
            r.ok && ReadFile(r.fs, [SLASH] + name) == Some([])
  {
    var fs, path := Formatted(ss, blocks), [SLASH] + name;
    FormattedTidy(ss, blocks);
    OneComponent(name);
    EmptyRoot(fs, path, name);
    FirstClearIs(fs.iused, 2, 2);
    NewInodeSound(fs, MODE_REG, 1);
    var a := AllocInode(fs);
    var fs1 := PutInode(a.fs, a.ino, NewInode(MODE_REG, 1));
    AddFailsWhenFull(fs1, INODE_ROOT, name, a.ino);
    assert fs1.inodes[INODE_ROOT].direct[0] == 0 && !fs1.bused[1];
    assert DirAdd(fs1, INODE_ROOT, name, a.ino).ok;
    WriteThenRead(fs, path, [], path);
  }
}
