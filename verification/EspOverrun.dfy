/** Chains past the end of the allocation table: what they leave of the directories, and that a file whose chain leaves
    the table cannot be read. */
module EspOverrun {
  import opened Bytes
  import opened Sectors
  import opened Drives
  import opened Fat32
  import opened EspDirs

  /** Entries of one copy of the table. */
  function TableSize(g: Geo): nat { PER_SECTOR * g.fatSec }

  function Max(a: nat, b: nat): nat { if a < b then b else a }

  // ---- What links past the table do to a directory sector -----------------------------------------------------

  /** Entry `j` of the directory sector `s` of the data area, `was` before: overwritten from its first word on if the
      links up to `x` reach it, and else as it was. */
  ghost predicate SlotOk(g: Geo, d: Disk, s: nat, was: Sector, j: nat, x: nat)
    requires j < 16
  {
    var lba := DataLba(g) + s;
    && lba < |d| && |d[lba]| == |was| == SECTOR
    && if TableSize(g) + PER_SECTOR * s + 8 * j < x then d[lba][32 * j + 3] < 0x10
       else forall i :: 32 * j <= i < 32 * j + 32 ==> d[lba][i] == was[i]
  }

  ghost predicate Swept(g: Geo, d: Disk, s: nat, was: Sector, x: nat) { forall j: nat | j < 16 :: SlotOk(g, d, s, was, j, x) }

  lemma HighByte(v: u32)
    requires v < 0x1000_0000
    ensures ToLe(4, v)[3] < 0x10
  {
  }

  /** A link written over word `ww` of a sector: its last byte is small, and everything from the next word on stays. */
  lemma PatchSlot(sec: Sector, ww: nat, v: u32, j: nat)
    requires |sec| == SECTOR && ww < PER_SECTOR && v < 0x1000_0000 && j < 16
    ensures var r := Patch(sec, 4 * ww, ToLe(4, v));
            && (if ww == 8 * j then r[32 * j + 3] < 0x10 else r[32 * j + 3] == sec[32 * j + 3])
            && (ww < 8 * j ==> forall i :: 32 * j <= i < 32 * j + 32 ==> r[i] == sec[i])
  {
    HighByte(v);
    var r := Patch(sec, 4 * ww, ToLe(4, v));
    assert r[4 * ww + 3] == ToLe(4, v)[3];
  }

  /** Word number `w` of the data area is overwritten by a link. */
  lemma SlotPut(g: Geo, d: Disk, s: nat, was: Sector, j: nat, x: nat, w: nat, v: u32)
    requires j < 16 && SlotOk(g, d, s, was, j, x) && v < 0x1000_0000 && TableSize(g) + w <= x
    requires Whole(d) && DataLba(g) + w / PER_SECTOR < |d|
    ensures SlotOk(g, PutEntry(d, DataLba(g), w, v), s, was, j, Max(x, TableSize(g) + w + 1))
  {
    if w / PER_SECTOR == s {
      assert w == PER_SECTOR * s + w % PER_SECTOR;
      PatchSlot(d[DataLba(g) + s], w % PER_SECTOR, v, j);
    } else {
      assert PER_SECTOR * s + 8 * j != w;
    }
  }

  lemma WordPut(g: Geo, d: Disk, s: nat, was: Sector, x: nat, w: nat, v: u32)
    requires Swept(g, d, s, was, x) && v < 0x1000_0000 && TableSize(g) + w <= x && Whole(d) && DataLba(g) + w / PER_SECTOR < |d|
    ensures Swept(g, PutEntry(d, DataLba(g), w, v), s, was, Max(x, TableSize(g) + w + 1))
  {
    var d', x' := PutEntry(d, DataLba(g), w, v), Max(x, TableSize(g) + w + 1);
    forall j: nat | j < 16 ensures SlotOk(g, d', s, was, j, x') {
      SlotPut(g, d, s, was, j, x, w, v);
    }
  }

  lemma SweptSame(g: Geo, d: Disk, d': Disk, s: nat, was: Sector, x: nat)
    requires Swept(g, d, s, was, x) && |d'| == |d| && DataLba(g) + s < |d| && d'[DataLba(g) + s] == d[DataLba(g) + s]
    ensures Swept(g, d', s, was, x)
  {
    forall j: nat | j < 16 ensures SlotOk(g, d', s, was, j, x) { assert SlotOk(g, d, s, was, j, x); }
  }

  /** An entry past the first copy is one of the second copy, and one past the second is a word of the data area. */
  lemma PastTheCopy(g: Geo, f: nat, c: nat)
    requires c >= TableSize(g)
    ensures f + c / PER_SECTOR == f + g.fatSec + (c - TableSize(g)) / PER_SECTOR && c % PER_SECTOR == (c - TableSize(g)) % PER_SECTOR
  {
  }

  lemma PastBoth(g: Geo, c: nat)
    requires c >= 2 * TableSize(g)
    ensures var w := c - 2 * TableSize(g);
            Fat1(g) + c / PER_SECTOR == DataLba(g) + w / PER_SECTOR && c % PER_SECTOR == w % PER_SECTOR
  {
    PastTheCopy(g, Fat1(g), c);
    PastTheCopy(g, Fat2(g), c - TableSize(g));
  }

  /** Without a premise about the last cluster: an entry past the end of the first copy lands in the second copy. */
  lemma OverrunHitsSecondCopy(g: Geo, d: Disk, c: nat, v: u32)
    requires Whole(d) && c >= TableSize(g) && Fat1(g) + c / PER_SECTOR < |d|
    ensures Fat2(g) + (c - TableSize(g)) / PER_SECTOR < |d|
    ensures PutEntry(d, Fat1(g), c, v) == PutEntry(d, Fat2(g), c - TableSize(g), v)
  {
    PastTheCopy(g, Fat1(g), c);
  }

  lemma FirstSweeps(g: Geo, d: Disk, c: nat, v: u32, s: nat, was: Sector, x: nat)
    requires Whole(d) && Fat1(g) + c / PER_SECTOR < |d| && v < 0x1000_0000 && c <= x && Swept(g, d, s, was, x) && DataLba(g) + s < |d|
    requires g.fatSec >= 1
    ensures Swept(g, PutEntry(d, Fat1(g), c, v), s, was, x)
  {
    if c < 2 * TableSize(g) {
      SweptSame(g, d, PutEntry(d, Fat1(g), c, v), s, was, x);
    } else {
      var w := c - 2 * TableSize(g);
      PastBoth(g, c);
      WordPut(g, d, s, was, x, w, v);
      assert PutEntry(d, Fat1(g), c, v) == PutEntry(d, DataLba(g), w, v);
    }
  }

  lemma SecondSweeps(g: Geo, d: Disk, c: nat, v: u32, s: nat, was: Sector, x: nat)
    requires Whole(d) && Fat2(g) + c / PER_SECTOR < |d| && v < 0x1000_0000 && Swept(g, d, s, was, x) && DataLba(g) + s < |d|
    requires TableSize(g) <= x && c <= x
    ensures Swept(g, PutEntry(d, Fat2(g), c, v), s, was, Max(x, c + 1))
  {
    if c < TableSize(g) {
      SweptSame(g, d, PutEntry(d, Fat2(g), c, v), s, was, x);
    } else {
      PastTheCopy(g, Fat2(g), c);
      WordPut(g, d, s, was, x, c - TableSize(g), v);
      assert PutEntry(d, Fat2(g), c, v) == PutEntry(d, DataLba(g), c - TableSize(g), v);
    }
  }

  lemma LinkSweeps(g: Geo, d: Disk, start: nat, nc: nat, i: nat, s: nat, was: Sector, x: nat)
    requires Whole(d) && Reach(g, |d|, start + nc) && i < nc && start + nc <= EOC_MIN && DataLba(g) + s < |d|
    requires g.fatSec >= 1 && TableSize(g) <= x && start + i <= x && Swept(g, d, s, was, x)
    ensures Swept(g, PutLink(g, d, start, nc, i), s, was, Max(x, start + i + 1))
  {
    var c, v := start + i, Link(start, nc, start + i);
    FirstSweeps(g, d, c, v, s, was, x);
    SecondSweeps(g, PutEntry(d, Fat1(g), c, v), c, v, s, was, x);
  }

  ghost predicate SweptTo(g: Geo, size: nat, start: nat, s: nat, was: Sector, x: nat, y: Disk, j: nat) {
    Whole(y) && |y| == size && Swept(g, y, s, was, Max(x, start + j))
  }

  lemma LinkerSweeps(g: Geo, size: nat, start: nat, nc: nat, s: nat, was: Sector, x: nat, y: Disk, j: nat)
    requires Reach(g, size, start + nc) && j < nc && start + nc <= EOC_MIN && DataLba(g) + s < size
    requires g.fatSec >= 1 && TableSize(g) <= x && start <= x && SweptTo(g, size, start, s, was, x, y, j)
    ensures SweptTo(g, size, start, s, was, x, Linker(g, size, start, nc)(y, j), j + 1)
  {
    LinkSweeps(g, y, start, nc, j, s, was, Max(x, start + j));
    assert Max(Max(x, start + j), start + j + 1) == Max(x, start + (j + 1));
  }

  /** A chain that starts where the overwritten words end, or before, overwrites on from there. */
  lemma ChainSweeps(g: Geo, d: Disk, start: nat, nc: nat, s: nat, was: Sector, x: nat)
    requires Whole(d) && Reach(g, |d|, start + nc) && start + nc <= EOC_MIN && DataLba(g) + s < |d|
    requires g.fatSec >= 1 && TableSize(g) <= x && start <= x && Swept(g, d, s, was, x)
    ensures Swept(g, PutLinks(g, d, start, nc, nc), s, was, Max(x, start + nc))
  {
    var put := Linker(g, |d|, start, nc);
    var inv := (y: Disk, j: nat) => SweptTo(g, |d|, start, s, was, x, y, j);
    forall y, j: nat | inv(y, j) && j < nc ensures inv(put(y, j), j + 1) { LinkerSweeps(g, |d|, start, nc, s, was, x, y, j); }
    assert Max(x, start + 0) == x;
    IterateKeeps(put, inv, d, nc, nc);
  }

  // ---- The links inside the table -----------------------------------------------------------------------------

  ghost predicate LinksOn(g: Geo, d: Disk, c: nat) {
    Whole(d) && Fat1(g) + c / PER_SECTOR < |d| && Entry(d, Fat1(g), c) == c + 1
  }

  /** Every cluster from `lo` up to `hi` that has an entry in the first copy leads to the next. */
  ghost predicate Linked(g: Geo, d: Disk, lo: nat, hi: nat) {
    forall c: nat :: lo <= c < hi && c < TableSize(g) ==> LinksOn(g, d, c)
  }

  lemma LinkedKept(g: Geo, d: Disk, d': Disk, lo: nat, hi: nat)
    requires Linked(g, d, lo, hi) && Whole(d') && |d'| == |d| && forall k :: Fat1(g) <= k < Fat2(g) && k < |d| ==> d'[k] == d[k]
    ensures Linked(g, d', lo, hi)
  {
    forall c: nat | lo <= c < hi && c < TableSize(g) ensures LinksOn(g, d', c) { assert LinksOn(g, d, c); }
  }

  lemma LinkLinks(g: Geo, d: Disk, start: nat, nc: nat, i: nat)
    requires Whole(d) && Reach(g, |d|, start + nc) && i < nc && start + nc <= EOC_MIN && TableSize(g) < start + nc
    requires Linked(g, d, start, start + i)
    ensures Linked(g, PutLink(g, d, start, nc, i), start, start + i + 1)
  {
    var c0, v := start + i, Link(start, nc, start + i);
    var d1 := PutEntry(d, Fat1(g), c0, v);
    var d2 := PutEntry(d1, Fat2(g), c0, v);
    forall c: nat | start <= c < start + i + 1 && c < TableSize(g) ensures LinksOn(g, d1, c) {
      if c == c0 {
        PutEntrySets(d, Fat1(g), c, v);
      } else {
        assert LinksOn(g, d, c);
        PutEntryKeeps(d, Fat1(g), c0, v, Fat1(g), c);
      }
    }
    LinkedKept(g, d1, d2, start, start + i + 1);
  }

  ghost predicate LinkedTo(g: Geo, size: nat, lo: nat, hi: nat, y: Disk) { Whole(y) && |y| == size && Linked(g, y, lo, hi) }

  ghost predicate LinkedFor(g: Geo, size: nat, start: nat, y: Disk, j: nat) { LinkedTo(g, size, start, start + j, y) }

  lemma LinkerLinks(g: Geo, size: nat, start: nat, nc: nat, y: Disk, j: nat)
    requires Reach(g, size, start + nc) && j < nc && start + nc <= EOC_MIN && TableSize(g) < start + nc
    requires LinkedFor(g, size, start, y, j)
    ensures LinkedFor(g, size, start, Linker(g, size, start, nc)(y, j), j + 1)
  {
    LinkLinks(g, y, start, nc, j);
    assert start + j + 1 == start + (j + 1);
  }

  lemma ChainLinks(g: Geo, d: Disk, start: nat, nc: nat)
    requires Whole(d) && Reach(g, |d|, start + nc) && start + nc <= EOC_MIN && TableSize(g) < start + nc
    ensures Linked(g, PutLinks(g, d, start, nc, nc), start, start + nc)
  {
    var put := Linker(g, |d|, start, nc);
    var inv := (y: Disk, j: nat) => LinkedFor(g, |d|, start, y, j);
    forall y, j: nat | inv(y, j) && j < nc ensures inv(put(y, j), j + 1) { LinkerLinks(g, |d|, start, nc, y, j); }
    assert LinkedFor(g, |d|, start, d, 0);
    IterateKeeps(put, inv, d, nc, nc);
    assert LinkedFor(g, |d|, start, PutLinks(g, d, start, nc, nc), nc);
  }

  /** Below the second copy a chain elsewhere changes only its own entries. */
  lemma LinkKeeps(g: Geo, d: Disk, start: nat, nc: nat, i: nat, lo: nat, hi: nat)
    requires Whole(d) && Reach(g, |d|, start + nc) && i < nc && start + nc <= EOC_MIN && start + nc <= lo
    requires Linked(g, d, lo, hi)
    ensures Linked(g, PutLink(g, d, start, nc, i), lo, hi)
  {
    var c0, v := start + i, Link(start, nc, start + i);
    var d1 := PutEntry(d, Fat1(g), c0, v);
    forall c: nat | lo <= c < hi && c < TableSize(g) ensures LinksOn(g, d1, c) {
      assert LinksOn(g, d, c);
      PutEntryKeeps(d, Fat1(g), c0, v, Fat1(g), c);
    }
    LinkedKept(g, d1, PutEntry(d1, Fat2(g), c0, v), lo, hi);
  }

  lemma LinkerKeeps(g: Geo, size: nat, start: nat, nc: nat, lo: nat, hi: nat, y: Disk, j: nat)
    requires Reach(g, size, start + nc) && j < nc && start + nc <= EOC_MIN && start + nc <= lo && LinkedTo(g, size, lo, hi, y)
    ensures LinkedTo(g, size, lo, hi, Linker(g, size, start, nc)(y, j))
  {
    LinkKeeps(g, y, start, nc, j, lo, hi);
  }

  lemma ChainKeeps(g: Geo, d: Disk, start: nat, nc: nat, lo: nat, hi: nat)
    requires Whole(d) && Reach(g, |d|, start + nc) && start + nc <= EOC_MIN && start + nc <= lo && Linked(g, d, lo, hi)
    ensures Linked(g, PutLinks(g, d, start, nc, nc), lo, hi)
  {
    var put := Linker(g, |d|, start, nc);
    var inv := (y: Disk, j: nat) => LinkedTo(g, |d|, lo, hi, y);
    forall y, j: nat | inv(y, j) && j < nc ensures inv(put(y, j), j + 1) { LinkerKeeps(g, |d|, start, nc, lo, hi, y, j); }
    IterateKeeps(put, inv, d, nc, nc);
  }

  // ---- Reading after an overrun -----------------------------------------------------------------------------------

  lemma SlotFound(cur: Sector, was: Sector, name: Name11, i: nat)
    requires |cur| == SECTOR && OnlySecond(was, name) && i < 16 && NameAt(cur, 32 * i) == name
    requires cur[32 * i + 3] < 0x10 || forall k :: 32 * i <= k < 32 * i + 32 ==> cur[k] == was[k]
    ensures ItemAt(cur, 32 * i) == ItemAt(was, 64)
  {
    assert NameAt(cur, 32 * i)[3] == cur[32 * i + 3] && NameAt(cur, 32 * i)[0] == cur[32 * i];
    assert i == 2;
    assert cur[84..86] == was[84..86] && cur[90..92] == was[90..92] && cur[92..96] == was[92..96];
  }

  /** In a directory that links have run over, the entry is found as it was, or not at all. */
  lemma {:induction false} SweptFind(g: Geo, d: Disk, s: nat, was: Sector, x: nat, name: Name11, i: nat)
    requires Swept(g, d, s, was, x) && OnlySecond(was, name) && i <= 16 && DataLba(g) + s < |d| && |d[DataLba(g) + s]| == SECTOR
    ensures var r := FindItem(d[DataLba(g) + s], name, i); r.None? || r == Some(ItemAt(was, 64))
    decreases 16 - i
  {
    if i < 16 {
      assert SlotOk(g, d, s, was, i, x);
      if NameAt(d[DataLba(g) + s], 32 * i) == name { SlotFound(d[DataLba(g) + s], was, name, i); }
      SweptFind(g, d, s, was, x, name, i + 1);
    }
  }

  /** A chain that leaves the table is followed to the end of the table. */
  lemma {:induction false} FollowShort(t: seq<u32>, c: nat, fuel: nat)
    requires c <= |t| <= EOC_MIN - 1 && fuel >= |t| - c && forall k: nat | c <= k < |t| :: t[k] == k + 1
    ensures Follow(t, c, fuel) == Clusters(c, |t| - c)
    decreases |t| - c
  {
    if c < |t| {
      FollowShort(t, c + 1, fuel - 1);
      assert [c] + Clusters(c + 1, |t| - c - 1) == Clusters(c, |t| - c);
    }
  }

  lemma FollowLinked(g: Geo, d: Disk, start: nat, nc: nat)
    requires Whole(d) && DataLba(g) <= |d| && TableSize(g) < start + nc <= EOC_MIN && Linked(g, d, start, start + nc)
    ensures var t := Table(d, Fat1(g), g.fatSec);
            Follow(t, start, |t|) == if start < |t| then Clusters(start, |t| - start) else []
  {
    var t := Table(d, Fat1(g), g.fatSec);
    if start < |t| {
      forall k: nat | start <= k < |t| ensures t[k] == k + 1 { assert LinksOn(g, d, k); }
      FollowShort(t, start, |t|);
    }
  }

  lemma Fewer(a: nat, nc: nat, m: nat)
    requires a < nc
    ensures a * m <= (nc - 1) * m
  {
  }

  lemma RunLength(g: Geo, d: Disk, start: nat, n: nat)
    requires Whole(d) && start >= 2 && Clba(g, start + n) <= |d|
    ensures OnDisk(g, d, Clusters(start, n)) && |ReadClusters(g, d, Clusters(start, n))| == n * (g.spc * SECTOR)
  {
    ReadRun(g, d, start, n);
    JoinLength(d, Clba(g, start), n * g.spc, SECTOR);
    Associate(n, g.spc);
  }

  lemma Associate(n: nat, spc: nat)
    ensures n * spc * SECTOR == n * (spc * SECTOR)
  {
  }

  /** The bytes of what is left of the chain are too few. */
  lemma LeftBytes(g: Geo, d: Disk, start: nat, nc: nat)
    requires Whole(d) && start >= 2 && nc >= 1 && Clba(g, start + nc) <= |d| && TableSize(g) < start + nc
    ensures var cs := if start < TableSize(g) then Clusters(start, TableSize(g) - start) else [];
            OnDisk(g, d, cs) && |ReadClusters(g, d, cs)| <= (nc - 1) * (g.spc * SECTOR)
  {
    if start < TableSize(g) {
      var n := TableSize(g) - start;
      ClusterBelow(g, start + n, start + nc);
      RunLength(g, d, start, n);
      Fewer(n, nc, g.spc * SECTOR);
    } else {
      Fewer(0, nc, g.spc * SECTOR);
    }
  }

  /** A file whose chain leaves the table cannot be read through the first copy: its chain ends too early. */
  lemma TooShort(g: Geo, d: Disk, start: nat, nc: nat, size: nat, attr: byte)
    requires Whole(d) && start >= 2 && nc >= 1 && Clba(g, start + nc) <= |d| && size > (nc - 1) * (g.spc * SECTOR)
    requires DataLba(g) <= |d| && TableSize(g) < start + nc <= EOC_MIN && Linked(g, d, start, start + nc)
    ensures ReadFile(g, d, Fat1(g), Item(start, size, attr)).None?
  {
    FollowLinked(g, d, start, nc);
    LeftBytes(g, d, start, nc);
  }

  /** Both directories on the way to the kernel, as links up to `x` have left them. */
  ghost predicate WaySwept(g: Geo, d: Disk, root: Sector, sysb: Sector, x: nat) {
    Swept(g, d, 0, root, x) && Swept(g, d, 3 * g.spc, sysb, x)
  }

  lemma NoWay(g: Geo, d: Disk, f: nat, it: Item)
    requires Whole(d) && f + g.fatSec <= |d| && Clba(g, 2) < |d| && Clba(g, 5) < |d| && ReadFile(g, d, f, it).None?
    requires var r := FindItem(d[Clba(g, 2)], BOOT, 0); r.None? || r == Some(Item(5, 0, ATTR_DIR))
    requires var r := FindItem(d[Clba(g, 5)], KERNEL, 0); r.None? || r == Some(it)
    ensures ReadPath(g, d, f, 2, [BOOT, KERNEL]).None?
  {
    assert [BOOT, KERNEL][1..] == [KERNEL];
    assert ReadPath(g, d, f, 5, [KERNEL]).None?;
  }

  /** A kernel whose chain leaves the table is not found at its path, through the first copy. */
  lemma KernelUnreadable(g: Geo, d: Disk, root: Sector, sysb: Sector, x: nat, it: Item)
    requires Whole(d) && DataLba(g) <= |d| && DataLba(g) + 3 * g.spc < |d| && WaySwept(g, d, root, sysb, x)
    requires OnlySecond(root, BOOT) && OnlySecond(sysb, KERNEL)
    requires ItemAt(root, 64) == Item(5, 0, ATTR_DIR) && ItemAt(sysb, 64) == it && ReadFile(g, d, Fat1(g), it).None?
    ensures ReadPath(g, d, Fat1(g), 2, [BOOT, KERNEL]).None?
  {
    SweptFind(g, d, 0, root, x, BOOT, 0);
    SweptFind(g, d, 3 * g.spc, sysb, x, KERNEL, 0);
    NoWay(g, d, Fat1(g), it);
  }
}
