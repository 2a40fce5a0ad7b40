/** AeternaFS directories: the packed 32-byte entries of a directory are a finite
    map from names to inode numbers, and adding, removing and looking up an entry
    are the operations of that map. */
module AeternaDirs {
  import opened Bytes
  import opened AeternaModel
  import opened AeternaSound

  // ---- One entry in one block ---------------------------------------------------

  lemma CStringIs(raw: seq<byte>, name: Name)
    requires |name| < |raw| && raw[..|name|] == name && raw[|name|] == 0 && 0 !in name
    ensures CString(raw) == name
  {
  }

  /** Slots do not overlap: patching one leaves the others as they were. */
  lemma OtherSlots(block: seq<byte>, block1: seq<byte>, slot: nat)
    requires slot < SlotCount(block) && |block1| == |block|
    requires forall i :: 0 <= i < |block| && !(32 * slot <= i < 32 * slot + 32) ==> block1[i] == block[i]
    ensures forall t: nat :: t < SlotCount(block) && t != slot ==>
              SlotIno(block1, t) == SlotIno(block, t) && SlotName(block1, t) == SlotName(block, t)
  {
    forall t: nat | t < SlotCount(block) && t != slot
      ensures SlotIno(block1, t) == SlotIno(block, t) && SlotName(block1, t) == SlotName(block, t)
    {
      assert block1[32 * t..32 * t + 4] == block[32 * t..32 * t + 4];
      assert block1[32 * t + 4..32 * t + 32] == block[32 * t + 4..32 * t + 32];
    }
  }

  lemma EntryIno(block: seq<byte>, slot: nat, child: u32, name: Name)
    requires slot < SlotCount(block) && |name| <= 27
    ensures SlotIno(PutEntry(block, slot, child, name), slot) == child
  {
    var o := 32 * slot;
    var b1 := Patch(block, o, ToLe(4, child));
    var b2 := Patch(b1, o + 4, name);
    PatchFrame(b1, o + 4, name, o, o + 4);
    PatchFrame(b2, o + 4 + |name|, [0], o, o + 4);
    LeRoundTrip32(child);
  }

  lemma EntryName(block: seq<byte>, slot: nat, child: u32, name: Name)
    requires slot < SlotCount(block) && |name| <= 27 && 0 !in name
    ensures SlotName(PutEntry(block, slot, child, name), slot) == name
  {
    var o := 32 * slot;
    var b2 := Patch(Patch(block, o, ToLe(4, child)), o + 4, name);
    var b := PutEntry(block, slot, child, name);
    var raw := b[o + 4..o + 32];
    SliceOfSlice(b, o + 4, o + 32, 0, |name|);
    PatchFrame(b2, o + 4 + |name|, [0], o + 4, o + 4 + |name|);
    assert raw[|name|] == b[o + 4 + |name|] == b[o + 4 + |name|..o + 4 + |name| + 1][0];
    CStringIs(raw, name);
  }

  lemma EntryStored(block: seq<byte>, slot: nat, child: u32, name: Name)
    requires slot < SlotCount(block) && |name| <= 27 && 0 !in name
    ensures var b := PutEntry(block, slot, child, name);
            && SlotIno(b, slot) == child && SlotName(b, slot) == name
            && forall t: nat :: t < SlotCount(block) && t != slot ==>
                 SlotIno(b, t) == SlotIno(block, t) && SlotName(b, t) == SlotName(block, t)
  {
    EntryIno(block, slot, child, name);
    EntryName(block, slot, child, name);
    OtherSlots(block, PutEntry(block, slot, child, name), slot);
  }

  lemma EntryCleared(block: seq<byte>, slot: nat)
    requires slot < SlotCount(block)
    ensures var b := ClearEntry(block, slot);
            && SlotIno(b, slot) == 0
            && forall t: nat :: t < SlotCount(block) && t != slot ==>
                 SlotIno(b, t) == SlotIno(block, t) && SlotName(b, t) == SlotName(block, t)
  {
    var b := ClearEntry(block, slot);
    ToLeZero(4);
    assert b[32 * slot..32 * slot + 4] == Zeros(4);
    LeRoundTrip32(0);
    OtherSlots(block, b, slot);
  }

  lemma ZeroBlockEmpty(n: nat, t: nat)
    requires t < SlotCount(Zeros(n))
    ensures SlotIno(Zeros(n), t) == 0
  {
    ToLeZero(4);
    assert Zeros(n)[32 * t..32 * t + 4] == Zeros(4);
    LeRoundTrip32(0);
  }

  // ---- Places of a directory --------------------------------------------------------

  /** `(j, t)` is a slot that a scan of the directory reaches. */
  ghost predicate Reached(fs: Fs, ds: seq<u32>, j: nat, t: nat) {
    && j < |ds| && (forall l :: 0 <= l <= j ==> ds[l] != 0)
    && t < SlotCount(BlockAt(fs, ds[j]))
  }

  /** A scan for `name` would stop at `(j, t)`. */
  ghost predicate Hit(fs: Fs, ds: seq<u32>, j: nat, t: nat, name: Name) {
    Reached(fs, ds, j, t) && Names(BlockAt(fs, ds[j]), t, name)
  }

  ghost predicate Before(j: nat, t: nat, k: nat, s: nat) { j < k || (j == k && t < s) }

  /** A scan of one block stops at its first hit. */
  lemma BlockScan(fs: Fs, ds: seq<u32>, k: nat, name: Name)
    requires k < |ds| && forall l :: 0 <= l <= k ==> ds[l] != 0
    ensures var block := BlockAt(fs, ds[k]); var s := FindSlot(block, 0, name);
            && (forall t: nat :: t < s ==> !Hit(fs, ds, k, t, name))
            && (if s < SlotCount(block) then Hit(fs, ds, k, s, name) else forall t: nat :: !Hit(fs, ds, k, t, name))
  {
  }

  /** What `DirFind` promises for the pointers from `k` on. */
  ghost predicate FirstFrom(fs: Fs, ds: seq<u32>, k: nat, name: Name, p: Place) {
    match p
    case At(j, t) =>
      && k <= j && Hit(fs, ds, j, t, name)
      && forall j': nat, t': nat :: k <= j' && Before(j', t', j, t) ==> !Hit(fs, ds, j', t', name)
    case Nowhere => forall j': nat, t': nat :: k <= j' ==> !Hit(fs, ds, j', t', name)
  }

  lemma FirstFromStep(fs: Fs, ds: seq<u32>, k: nat, name: Name, p: Place)
    requires FirstFrom(fs, ds, k + 1, name, p)
    requires forall t: nat :: !Hit(fs, ds, k, t, name)
    ensures FirstFrom(fs, ds, k, name, p)
  {
    forall j': nat, t': nat | k <= j' && (p.At? ==> Before(j', t', p.k, p.slot)) ensures !Hit(fs, ds, j', t', name) {
      if j' != k { assert k + 1 <= j'; }
    }
  }

  lemma {:induction false} DirFindFrom(fs: Fs, ds: seq<u32>, k: nat, name: Name)
    requires k <= |ds| && forall l :: 0 <= l < k ==> ds[l] != 0
    ensures FirstFrom(fs, ds, k, name, DirFind(fs, ds, k, name))
    decreases |ds| - k
  {
    if k < |ds| && ds[k] != 0 {
      BlockScan(fs, ds, k, name);
      var block := BlockAt(fs, ds[k]);
      if FindSlot(block, 0, name) == SlotCount(block) {
        DirFindFrom(fs, ds, k + 1, name);
        FirstFromStep(fs, ds, k, name, DirFind(fs, ds, k + 1, name));
      }
    }
  }

  /** `DirFind` is the first hit in scan order. */
  lemma DirFindFirst(fs: Fs, ds: seq<u32>, name: Name)
    ensures match DirFind(fs, ds, 0, name)
            case At(j, t) =>
              Hit(fs, ds, j, t, name) && forall j': nat, t': nat :: Before(j', t', j, t) ==> !Hit(fs, ds, j', t', name)
            case Nowhere => forall j': nat, t': nat :: !Hit(fs, ds, j', t', name)
  {
    DirFindFrom(fs, ds, 0, name);
  }

  /** A scan depends on nothing but its hits. */
  lemma SameHitsSameFind(fs: Fs, ds: seq<u32>, fs1: Fs, ds1: seq<u32>, name: Name)
    requires forall j: nat, t: nat :: Hit(fs1, ds1, j, t, name) == Hit(fs, ds, j, t, name)
    ensures DirFind(fs1, ds1, 0, name) == DirFind(fs, ds, 0, name)
  {
    DirFindFirst(fs, ds, name);
    DirFindFirst(fs1, ds1, name);
    var p, p1 := DirFind(fs, ds, 0, name), DirFind(fs1, ds1, 0, name);
    if p.At? { assert Hit(fs1, ds1, p.k, p.slot, name); }
    if p1.At? { assert Hit(fs, ds, p1.k, p1.slot, name); }
  }

  lemma OnlyHit(fs: Fs, ds: seq<u32>, k: nat, s: nat, name: Name)
    requires Hit(fs, ds, k, s, name)
    requires forall j: nat, t: nat :: Hit(fs, ds, j, t, name) ==> j == k && t == s
    ensures DirFind(fs, ds, 0, name) == At(k, s)
  {
    DirFindFirst(fs, ds, name);
  }

  /** Inode number at a place. */
  ghost function InoAt(fs: Fs, ds: seq<u32>, j: nat, t: nat): nat
    requires Reached(fs, ds, j, t)
  {
    SlotIno(BlockAt(fs, ds[j]), t)
  }

  /** `ds1` over `fs1` is `ds` over `fs` with the free place `(k, s)` now holding `name` and `child`. */
  ghost predicate OneEntryMore(fs: Fs, ds: seq<u32>, fs1: Fs, ds1: seq<u32>, k: nat, s: nat, name: Name, child: nat) {
    && Hit(fs1, ds1, k, s, name) && InoAt(fs1, ds1, k, s) == child
    && (forall n: Name :: !Hit(fs, ds, k, s, n))
    && (forall n: Name :: n != name ==> !Hit(fs1, ds1, k, s, n))
    && (forall j: nat, t: nat, n: Name :: (j, t) != (k, s) ==> Hit(fs1, ds1, j, t, n) == Hit(fs, ds, j, t, n))
    && (forall j: nat, t: nat :: (j, t) != (k, s) && Reached(fs, ds, j, t) && Reached(fs1, ds1, j, t)
                                 ==> InoAt(fs1, ds1, j, t) == InoAt(fs, ds, j, t))
  }

  /** An entry placed in a free slot of an existing block. */
  lemma EntryInSlot(fs: Fs, dir: nat, k: nat, s: nat, name: Name, child: u32)
    requires Sound(fs) && InTable(dir) && 0 !in name && |name| <= 27 && child != 0
    requires var ds := fs.inodes[dir].direct;
             Reached(fs, ds, k, s) && SlotIno(BlockAt(fs, ds[k]), s) == 0
    ensures var ds := fs.inodes[dir].direct;
            OneEntryMore(fs, ds, WriteBlock(fs, ds[k], PutEntry(BlockAt(fs, ds[k]), s, child, name)), ds, k, s, name, child)
  {
    var ds := fs.inodes[dir].direct;
    var b := PutEntry(BlockAt(fs, ds[k]), s, child, name);
    var fs1 := WriteBlock(fs, ds[k], b);
    Owns(fs, dir, k);
    EntryStored(BlockAt(fs, ds[k]), s, child, name);
    BlocksAround(fs, dir, k, b);
    forall j: nat, t: nat, n: Name | (j, t) != (k, s) ensures Hit(fs1, ds, j, t, n) == Hit(fs, ds, j, t, n) {
      if j < 8 { assert j == k ==> t != s; }
    }
  }

  /** Rewriting the block behind pointer `k` leaves the blocks behind the other pointers. */
  lemma BlocksAround(fs: Fs, dir: nat, k: nat, b: seq<byte>)
    requires Sound(fs) && InTable(dir) && k < 8 && fs.inodes[dir].direct[k] != 0 && |b| == fs.ss
    ensures var ds := fs.inodes[dir].direct; var fs1 := WriteBlock(fs, ds[k], b);
            && BlockAt(fs1, ds[k]) == b
            && forall j :: 0 <= j < 8 && j != k && ds[j] != 0 ==> BlockAt(fs1, ds[j]) == BlockAt(fs, ds[j])
  {
    var ds := fs.inodes[dir].direct;
    Owns(fs, dir, k);
    forall j | 0 <= j < 8 && j != k && ds[j] != 0 ensures ds[j] != ds[k] { Apart(fs, dir, k, dir, j); }
  }

  /** A block with one entry, appended behind the used pointers. */
  lemma AppendedBlock(fs: Fs, ds: seq<u32>, fs1: Fs, blk: u32, k: nat, name: Name, child: nat)
    requires |ds| == 8 && k < 8 && blk != 0 && child != 0
    requires forall j :: 0 <= j < 8 ==> (ds[j] == 0 <==> k <= j)
    requires forall j :: 0 <= j < k ==> BlockAt(fs1, ds[j]) == BlockAt(fs, ds[j])
    requires var b := BlockAt(fs1, blk);
             && SlotCount(b) > 0 && SlotIno(b, 0) == child && SlotName(b, 0) == name
             && forall t: nat :: 0 < t < SlotCount(b) ==> SlotIno(b, t) == 0
    ensures OneEntryMore(fs, ds, fs1, ds[k := blk], k, 0, name, child)
  {
    var ds1 := ds[k := blk];
    assert Reached(fs1, ds1, k, 0);
    forall j: nat, t: nat | (j, t) != (k, 0)
      ensures forall n: Name :: Hit(fs1, ds1, j, t, n) == Hit(fs, ds, j, t, n)
    {
      if k < j < 8 { assert ds1[j] == 0; }
    }
  }

  /** A zeroed block with one entry put in its first slot. */
  lemma OneEntryBlock(ss: nat, name: Name, child: u32)
    requires ss >= 64 && 0 !in name && |name| <= 27
    ensures var b := PutEntry(Zeros(ss), 0, child, name);
            && SlotCount(b) > 0 && SlotIno(b, 0) == child && SlotName(b, 0) == name
            && forall t: nat :: 0 < t < SlotCount(b) ==> SlotIno(b, t) == 0
  {
    var b := PutEntry(Zeros(ss), 0, child, name);
    EntryStored(Zeros(ss), 0, child, name);
    forall t: nat | 0 < t < SlotCount(b) ensures SlotIno(b, t) == 0 { ZeroBlockEmpty(ss, t); }
  }

  lemma UsedPrefix(ds: seq<u32>)
    requires Contiguous(ds)
    ensures forall j :: 0 <= j < |ds| ==> (ds[j] == 0 <==> FirstZero(ds, 0) <= j)
  {
  }

  /** A block with one entry placed behind the first unused pointer. */
  lemma EntryInNewBlock(fs: Fs, dir: nat, k: nat, b: seq<byte>, name: Name, child: u32)
    requires Sound(fs) && InTable(dir) && child != 0 && |b| == fs.ss
    requires k == FirstZero(fs.inodes[dir].direct, 0) && k < 8 && AllocBlock(fs).GotBlock?
    requires SlotCount(b) > 0 && SlotIno(b, 0) == child && SlotName(b, 0) == name
    requires forall t: nat :: 0 < t < SlotCount(b) ==> SlotIno(b, t) == 0
    ensures var ds := fs.inodes[dir].direct; var g := AllocBlock(fs);
            OneEntryMore(fs, ds, WriteBlock(g.fs, g.blk, b), ds[k := g.blk], k, 0, name, child)
  {
    var ds := fs.inodes[dir].direct;
    var g := AllocBlock(fs);
    var fs1 := WriteBlock(g.fs, g.blk, b);
    assert BlockAt(fs1, g.blk) == b;
    UsedPrefix(ds);
    forall j | 0 <= j < k ensures BlockAt(fs1, ds[j]) == BlockAt(fs, ds[j]) { Owns(fs, dir, j); }
    AppendedBlock(fs, ds, fs1, g.blk, k, name, child);
  }

  // ---- The three operations --------------------------------------------------------------

  /** The block behind pointer `k` of slot `i` is the same in both states. */
  ghost predicate SameBlock(fs: Fs, fs1: Fs, i: nat, k: nat)
    requires Shape(fs)
  {
    InTable(i) && k < 8 && fs.inodes[i].direct[k] != 0
    ==> BlockAt(fs1, fs.inodes[i].direct[k]) == BlockAt(fs, fs.inodes[i].direct[k])
  }

  /** Inode slots other than `x` are untouched, and so are the blocks they own. */
  ghost predicate Keeps(fs: Fs, fs1: Fs, x: nat) {
    && Shape(fs) && Shape(fs1) && fs1.ss == fs.ss
    && (forall i :: InTable(i) && i != x ==> fs1.inodes[i] == fs.inodes[i])
    && (forall i: nat, k: nat :: i != x ==> SameBlock(fs, fs1, i, k))
  }

  /** Rewriting a block that `x` owns keeps everybody else. */
  lemma WriteOwnBlockKeeps(fs: Fs, x: nat, j: nat, b: seq<byte>)
    requires Sound(fs) && InTable(x) && j < 8 && fs.inodes[x].direct[j] != 0 && |b| == fs.ss
    ensures Keeps(fs, WriteBlock(fs, fs.inodes[x].direct[j], b), x)
  {
    var fs1 := WriteBlock(fs, fs.inodes[x].direct[j], b);
    forall i: nat, k: nat | i != x ensures SameBlock(fs, fs1, i, k) {
      if InTable(i) && k < 8 { Apart(fs, x, j, i, k); }
    }
  }

  /** A state whose marked blocks and other inodes are unchanged keeps everybody but `x`. */
  lemma MarkedKeeps(fs: Fs, fs1: Fs, x: nat)
    requires Sound(fs) && Shape(fs1) && fs1.ss == fs.ss && |fs1.blocks| == |fs.blocks|
    requires forall i :: InTable(i) && i != x ==> fs1.inodes[i] == fs.inodes[i]
    requires forall b :: 0 <= b < |fs.bused| && fs.bused[b] ==> fs1.blocks[b] == fs.blocks[b]
    ensures Keeps(fs, fs1, x)
  {
    forall i: nat, k: nat | i != x ensures SameBlock(fs, fs1, i, k) {
      if InTable(i) && k < 8 && fs.inodes[i].direct[k] != 0 { Owns(fs, i, k); }
    }
  }

  /** Names and inodes a directory entry may hold: `1..=27` bytes without NUL, and no inode 0. */
  ghost predicate Storable(name: Name, child: u32) {
    0 < |name| <= 27 && 0 !in name && child != 0
  }

  /** Where the new entry goes. */
  lemma DirAddPlace(fs: Fs, dir: nat, name: Name, child: u32) returns (k: nat, s: nat)
    requires Sound(fs) && Storable(name, child) && DirAdd(fs, dir, name, child).ok
    ensures InTable(dir)
    ensures var fs1 := DirAdd(fs, dir, name, child).fs;
            && Shape(fs1) && IsDir(fs1.inodes[dir]) && IsDir(fs.inodes[dir])
            && OneEntryMore(fs, fs.inodes[dir].direct, fs1, fs1.inodes[dir].direct, k, s, name, child)
  {
    var ds := fs.inodes[dir].direct;
    DirAddShape(fs, dir, name, child);
    DirFindUnusedBounds(fs, ds, 0);
    match DirFindUnused(fs, ds, 0)
    case At(k0, s0) =>
      k, s := k0, s0;
      EntryInSlot(fs, dir, k, s, name, child);
    case Nowhere =>
      k, s := FirstZero(ds, 0), 0;
      var b := PutEntry(Zeros(fs.ss), 0, child, name);
      OneEntryBlock(fs.ss, name, child);
      EntryInNewBlock(fs, dir, k, b, name, child);
      var g := AllocBlock(fs);
      var fs1 := WriteBlock(g.fs, g.blk, b);
      OneEntryMoreByBlocks(fs, ds, fs1, DirAdd(fs, dir, name, child).fs, ds[k := g.blk], k, s, name, child);
  }

  /** What a directory holds depends on its pointers and the blocks only. */
  lemma OneEntryMoreByBlocks(fs: Fs, ds: seq<u32>, fs1: Fs, fs2: Fs, ds1: seq<u32>, k: nat, s: nat, name: Name, child: nat)
    requires OneEntryMore(fs, ds, fs1, ds1, k, s, name, child)
    requires fs2.blocks == fs1.blocks && fs2.ss == fs1.ss
    ensures OneEntryMore(fs, ds, fs2, ds1, k, s, name, child)
  {
    assert forall b: nat :: BlockAt(fs2, b) == BlockAt(fs1, b);
    assert forall j: nat, t: nat :: Reached(fs2, ds1, j, t) == Reached(fs1, ds1, j, t);
    assert forall j: nat, t: nat, n: Name :: Hit(fs2, ds1, j, t, n) == Hit(fs1, ds1, j, t, n);
  }

  lemma DirAddKeeps(fs: Fs, dir: nat, name: Name, child: u32)
    requires Sound(fs)
    ensures Keeps(fs, DirAdd(fs, dir, name, child).fs, dir)
  {
    DirAddShape(fs, dir, name, child);
    var r := DirAdd(fs, dir, name, child);
    if r.ok {
      var ds := fs.inodes[dir].direct;
      DirFindUnusedBounds(fs, ds, 0);
      match DirFindUnused(fs, ds, 0)
      case At(k, s) =>
        Owns(fs, dir, k);
        WriteOwnBlockKeeps(fs, dir, k, PutEntry(BlockAt(fs, ds[k]), s, child, name));
      case Nowhere => MarkedKeeps(fs, r.fs, dir);
    } else {
      MarkedKeeps(fs, r.fs, dir);
    }
  }

  lemma FoundAt(fs: Fs, dir: nat, name: Name, k: nat, s: nat)
    requires Shape(fs) && InTable(dir) && IsDir(fs.inodes[dir])
    requires Reached(fs, fs.inodes[dir].direct, k, s)
    requires DirFind(fs, fs.inodes[dir].direct, 0, name) == At(k, s)
    ensures DirLookup(fs, dir, name) == Some(InoAt(fs, fs.inodes[dir].direct, k, s))
  {
  }

  /** Adding an entry for a name the directory does not have is inserting it. */
  lemma DirAddInserts(fs: Fs, dir: nat, name: Name, child: u32)
    requires Sound(fs) && Storable(name, child)
    requires DirLookup(fs, dir, name) == None && DirAdd(fs, dir, name, child).ok
    ensures var fs1 := DirAdd(fs, dir, name, child).fs;
            && InTable(dir) && Shape(fs1) && IsDir(fs1.inodes[dir])
            && forall n: Name :: DirLookup(fs1, dir, n) == if n == name then Some(child as nat) else DirLookup(fs, dir, n)
  {
    var k, s := DirAddPlace(fs, dir, name, child);
    var fs1 := DirAdd(fs, dir, name, child).fs;
    var ds, ds1 := fs.inodes[dir].direct, fs1.inodes[dir].direct;
    DirFindFirst(fs, ds, name);
    assert forall j: nat, t: nat :: !Hit(fs, ds, j, t, name);
    OnlyHit(fs1, ds1, k, s, name);
    FoundAt(fs1, dir, name, k, s);
    forall n: Name | n != name ensures DirLookup(fs1, dir, n) == DirLookup(fs, dir, n) {
      assert forall j: nat, t: nat :: Hit(fs1, ds1, j, t, n) == Hit(fs, ds, j, t, n);
      SameHitsSameFind(fs, ds, fs1, ds1, n);
      DirFindFirst(fs, ds, n);
      DirFindFirst(fs1, ds1, n);
      var p := DirFind(fs, ds, 0, n);
      if p.At? {
        FoundAt(fs, dir, n, p.k, p.slot);
        FoundAt(fs1, dir, n, p.k, p.slot);
      }
    }
  }

  /** No name occurs at two places of the directory. */
  ghost predicate UniqueNames(fs: Fs, ds: seq<u32>) {
    forall j: nat, t: nat, j': nat, t': nat, n: Name ::
      Hit(fs, ds, j, t, n) && Hit(fs, ds, j', t', n) ==> j == j' && t == t'
  }

  lemma OneMoreUnique(fs: Fs, ds: seq<u32>, fs1: Fs, ds1: seq<u32>, k: nat, s: nat, name: Name, child: nat)
    requires OneEntryMore(fs, ds, fs1, ds1, k, s, name, child) && UniqueNames(fs, ds)
    requires forall j: nat, t: nat :: !Hit(fs, ds, j, t, name)
    ensures UniqueNames(fs1, ds1)
  {
    forall j: nat, t: nat, j': nat, t': nat, n: Name | Hit(fs1, ds1, j, t, n) && Hit(fs1, ds1, j', t', n)
      ensures j == j' && t == t'
    {
      if (j, t) != (k, s) { assert Hit(fs, ds, j, t, n); }
      if (j', t') != (k, s) { assert Hit(fs, ds, j', t', n); }
    }
  }

  lemma DirAddUnique(fs: Fs, dir: nat, name: Name, child: u32)
    requires Sound(fs) && Storable(name, child)
    requires DirLookup(fs, dir, name) == None && DirAdd(fs, dir, name, child).ok
    requires InTable(dir) && UniqueNames(fs, fs.inodes[dir].direct)
    ensures var fs1 := DirAdd(fs, dir, name, child).fs; UniqueNames(fs1, fs1.inodes[dir].direct)
  {
    var k, s := DirAddPlace(fs, dir, name, child);
    var fs1 := DirAdd(fs, dir, name, child).fs;
    var ds := fs.inodes[dir].direct;
    DirFindFirst(fs, ds, name);
    OneMoreUnique(fs, ds, fs1, fs1.inodes[dir].direct, k, s, name, child);
  }

  /** Clearing the entry found at `(k, s)` removes that hit and no other. */
  lemma EntryGone(fs: Fs, dir: nat, k: nat, s: nat)
    requires Sound(fs) && InTable(dir) && Reached(fs, fs.inodes[dir].direct, k, s)
    ensures var ds := fs.inodes[dir].direct;
            OneEntryLess(fs, WriteBlock(fs, ds[k], ClearEntry(BlockAt(fs, ds[k]), s)), ds, k, s)
  {
    var ds := fs.inodes[dir].direct;
    var b := ClearEntry(BlockAt(fs, ds[k]), s);
    var fs1 := WriteBlock(fs, ds[k], b);
    Owns(fs, dir, k);
    EntryCleared(BlockAt(fs, ds[k]), s);
    BlocksAround(fs, dir, k, b);
    assert forall j: nat, t: nat :: Reached(fs1, ds, j, t) == Reached(fs, ds, j, t);
    forall j: nat, t: nat, n: Name ensures Hit(fs1, ds, j, t, n) == (Hit(fs, ds, j, t, n) && (j, t) != (k, s)) {
      if Reached(fs, ds, j, t) && j == k && t != s {
        assert SlotIno(b, t) == SlotIno(BlockAt(fs, ds[k]), t);
      }
    }
  }

  lemma DirRemoveKeeps(fs: Fs, dir: nat, name: Name)
    requires Sound(fs)
    ensures var fs1 := DirRemove(fs, dir, name).fs; Keeps(fs, fs1, dir) && fs1 == fs.(blocks := fs1.blocks)
  {
    DirRemoveShape(fs, dir, name);
    var r := DirRemove(fs, dir, name);
    if r.ok {
      var ds := fs.inodes[dir].direct;
      DirFindBounds(fs, ds, 0, name);
      var p := DirFind(fs, ds, 0, name);
      Owns(fs, dir, p.k);
      WriteOwnBlockKeeps(fs, dir, p.k, ClearEntry(BlockAt(fs, ds[p.k]), p.slot));
    } else {
      MarkedKeeps(fs, r.fs, dir);
    }
  }

  /** `fs1` holds the entries of `fs` except the one at `(k, s)`. */
  ghost predicate OneEntryLess(fs: Fs, fs1: Fs, ds: seq<u32>, k: nat, s: nat) {
    && (forall j: nat, t: nat, n: Name :: Hit(fs1, ds, j, t, n) == (Hit(fs, ds, j, t, n) && (j, t) != (k, s)))
    && (forall j: nat, t: nat :: Reached(fs, ds, j, t) && (j, t) != (k, s)
                                 ==> Reached(fs1, ds, j, t) && InoAt(fs1, ds, j, t) == InoAt(fs, ds, j, t))
  }

  lemma OneLessLookup(fs: Fs, fs1: Fs, dir: nat, k: nat, s: nat, name: Name, n: Name)
    requires Shape(fs) && Shape(fs1) && InTable(dir) && IsDir(fs.inodes[dir]) && fs1.inodes == fs.inodes
    requires UniqueNames(fs, fs.inodes[dir].direct)
    requires OneEntryLess(fs, fs1, fs.inodes[dir].direct, k, s) && Hit(fs, fs.inodes[dir].direct, k, s, name)
    ensures DirLookup(fs1, dir, n) == if n == name then None else DirLookup(fs, dir, n)
  {
    var ds := fs.inodes[dir].direct;
    DirFindFirst(fs1, ds, n);
    if n != name {
      assert !Hit(fs, ds, k, s, n);
      assert forall j: nat, t: nat :: Hit(fs1, ds, j, t, n) == Hit(fs, ds, j, t, n);
      SameHitsSameFind(fs, ds, fs1, ds, n);
      var q := DirFind(fs1, ds, 0, n);
      if q.At? {
        assert Reached(fs, ds, q.k, q.slot);
        FoundAt(fs, dir, n, q.k, q.slot);
        FoundAt(fs1, dir, n, q.k, q.slot);
      }
    }
  }

  lemma DirRemovePlace(fs: Fs, dir: nat, name: Name) returns (k: nat, s: nat)
    requires Sound(fs) && InTable(dir) && IsDir(fs.inodes[dir]) && DirLookup(fs, dir, name).Some?
    ensures DirRemove(fs, dir, name).ok
    ensures Hit(fs, fs.inodes[dir].direct, k, s, name)
    ensures OneEntryLess(fs, DirRemove(fs, dir, name).fs, fs.inodes[dir].direct, k, s)
  {
    var ds := fs.inodes[dir].direct;
    DirFindFirst(fs, ds, name);
    var p := DirFind(fs, ds, 0, name);
    k, s := p.k, p.slot;
    EntryGone(fs, dir, k, s);
  }

  /** Removing an entry is deleting the name, given that names are unique; they stay so. */
  lemma DirRemoveDeletes(fs: Fs, dir: nat, name: Name)
    requires Sound(fs) && InTable(dir) && UniqueNames(fs, fs.inodes[dir].direct)
    ensures var r := DirRemove(fs, dir, name);
            && r.ok == DirLookup(fs, dir, name).Some?
            && Shape(r.fs) && r.fs == fs.(blocks := r.fs.blocks)
            && UniqueNames(r.fs, fs.inodes[dir].direct)
            && forall n: Name :: DirLookup(r.fs, dir, n) == if n == name then None else DirLookup(fs, dir, n)
  {
    DirRemoveShape(fs, dir, name);
    if IsDir(fs.inodes[dir]) && DirLookup(fs, dir, name).Some? {
      var fs1 := DirRemove(fs, dir, name).fs;
      var k, s := DirRemovePlace(fs, dir, name);
      forall n: Name ensures DirLookup(fs1, dir, n) == if n == name then None else DirLookup(fs, dir, n) {
        OneLessLookup(fs, fs1, dir, k, s, name, n);
      }
    }
  }

  // ---- Directories as finite maps ----------------------------------------------------------

  ghost function NamesIn(fs: Fs, dir: nat): set<Name>
    requires Shape(fs) && InTable(dir)
  {
    var ds := fs.inodes[dir].direct;
    set j: nat, t: nat | j < 8 && t < fs.ss && Reached(fs, ds, j, t) && SlotIno(BlockAt(fs, ds[j]), t) != 0
      :: SlotName(BlockAt(fs, ds[j]), t)
  }

  /** The map a directory stands for. */
  ghost function DirMap(fs: Fs, dir: nat): map<Name, nat>
    requires Shape(fs) && InTable(dir) && IsDir(fs.inodes[dir])
  {
    map n | n in NamesIn(fs, dir) && DirLookup(fs, dir, n).Some? :: DirLookup(fs, dir, n).value
  }

  /** `dir_lookup` is lookup in that map. */
  lemma LookupIsMapLookup(fs: Fs, dir: nat, name: Name)
    requires Shape(fs) && InTable(dir) && IsDir(fs.inodes[dir])
    ensures DirLookup(fs, dir, name) ==
            if name in DirMap(fs, dir) then Some(DirMap(fs, dir)[name]) else None
  {
    var ds := fs.inodes[dir].direct;
    if DirLookup(fs, dir, name).Some? {
      DirFindFirst(fs, ds, name);
      var p := DirFind(fs, ds, 0, name);
      assert Reached(fs, ds, p.k, p.slot);
      BlockLength(fs, ds[p.k]);
      assert SlotName(BlockAt(fs, ds[p.k]), p.slot) in NamesIn(fs, dir);
    }
  }

  /** Lookups determine the map. */
  lemma MapFromLookups(fs: Fs, dir: nat, m: map<Name, nat>)
    requires Shape(fs) && InTable(dir) && IsDir(fs.inodes[dir])
    requires forall n: Name :: DirLookup(fs, dir, n) == if n in m then Some(m[n]) else None
    ensures DirMap(fs, dir) == m
  {
    forall n: Name ensures n in DirMap(fs, dir) <==> n in m { LookupIsMapLookup(fs, dir, n); }
    forall n: Name | n in m ensures DirMap(fs, dir)[n] == m[n] { LookupIsMapLookup(fs, dir, n); }
  }

  lemma LookupsAreMapLookups(fs: Fs, dir: nat)
    requires Shape(fs) && InTable(dir) && IsDir(fs.inodes[dir])
    ensures forall n: Name :: DirLookup(fs, dir, n) == if n in DirMap(fs, dir) then Some(DirMap(fs, dir)[n]) else None
  {
    forall n: Name
      ensures DirLookup(fs, dir, n) == if n in DirMap(fs, dir) then Some(DirMap(fs, dir)[n]) else None
    {
      LookupIsMapLookup(fs, dir, n);
    }
  }

  lemma BlockLength(fs: Fs, blk: nat)
    requires Shape(fs)
    ensures |BlockAt(fs, blk)| == fs.ss && SlotCount(BlockAt(fs, blk)) <= fs.ss
  {
  }

  /** `dir_add_entry` for a new name is map insertion, and the used pointers stay contiguous. */
  lemma AddIsMapInsert(fs: Fs, dir: nat, name: Name, child: u32)
    requires Sound(fs) && Storable(name, child) && InTable(dir) && IsDir(fs.inodes[dir])
    requires name !in DirMap(fs, dir) && DirAdd(fs, dir, name, child).ok
    ensures var fs1 := DirAdd(fs, dir, name, child).fs;
            && Sound(fs1) && IsDir(fs1.inodes[dir]) && Contiguous(fs1.inodes[dir].direct)
            && DirMap(fs1, dir) == DirMap(fs, dir)[name := child]
  {
    LookupsAreMapLookups(fs, dir);
    DirAddInserts(fs, dir, name, child);
    DirAddSound(fs, dir, name, child);
    MapFromLookups(DirAdd(fs, dir, name, child).fs, dir, DirMap(fs, dir)[name := child]);
  }

  /** `dir_remove_entry` is map deletion; it reports whether the name was there. */
  lemma RemoveIsMapDelete(fs: Fs, dir: nat, name: Name)
    requires Sound(fs) && InTable(dir) && IsDir(fs.inodes[dir]) && UniqueNames(fs, fs.inodes[dir].direct)
    ensures var r := DirRemove(fs, dir, name);
            && Shape(r.fs) && IsDir(r.fs.inodes[dir])
            && r.ok == (name in DirMap(fs, dir))
            && DirMap(r.fs, dir) == DirMap(fs, dir) - {name}
  {
    DirRemoveDeletes(fs, dir, name);
    LookupsAreMapLookups(fs, dir);
    MapFromLookups(DirRemove(fs, dir, name).fs, dir, DirMap(fs, dir) - {name});
  }

  lemma {:induction false} NoUnusedFrom(fs: Fs, ds: seq<u32>, k: nat)
    requires k <= |ds| && forall l :: 0 <= l < k ==> ds[l] != 0
    ensures DirFindUnused(fs, ds, k).Nowhere? <==>
            forall j: nat, t: nat :: k <= j && Reached(fs, ds, j, t) ==> InoAt(fs, ds, j, t) != 0
    decreases |ds| - k
  {
    if k < |ds| && ds[k] != 0 {
      var block := BlockAt(fs, ds[k]);
      var s := FindUnused(block, 0);
      if s < SlotCount(block) {
        assert Reached(fs, ds, k, s) && InoAt(fs, ds, k, s) == 0;
      } else {
        NoUnusedFrom(fs, ds, k + 1);
        forall j: nat, t: nat | j == k && Reached(fs, ds, j, t) ensures InoAt(fs, ds, j, t) != 0 { }
      }
    }
  }

  /** With a name that fits, adding to a directory fails exactly when every slot it has is taken and
      no block can be added, because all eight pointers or all blocks are in use. */
  lemma AddFailsWhenFull(fs: Fs, dir: nat, name: Name, child: u32)
    requires Sound(fs) && InTable(dir) && IsDir(fs.inodes[dir]) && |name| <= 27
    ensures var ds := fs.inodes[dir].direct;
            !DirAdd(fs, dir, name, child).ok <==>
              && (forall j: nat, t: nat :: Reached(fs, ds, j, t) ==> InoAt(fs, ds, j, t) != 0)
              && ((forall k :: 0 <= k < 8 ==> ds[k] != 0) || (forall b :: 0 <= b < |fs.bused| ==> fs.bused[b]))
  {
    NoUnusedFrom(fs, fs.inodes[dir].direct, 0);
  }
}
