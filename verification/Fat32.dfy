/** The FAT32 system partition the installer lays out: cluster chains in two copies of the
    table, file contents in clusters, directory entries, and a reader for them. */
module Fat32 {
  import opened Bytes
  import opened Sectors
  import opened Drives

  const RSVD: nat := 32
  const NFAT: nat := 2
  const EOC: u32 := 0x0FFF_FFFF
  const EOC_MIN: u32 := 0x0FFF_FFF8
  const PER_SECTOR: nat := 128

  /** First sector of the partition, sectors per cluster, sectors per table copy, and the sectors in use behind it. */
  datatype Geo = Geo(start: nat, spc: nat, fatSec: nat)

  function Fat1(g: Geo): nat { g.start + RSVD }

  function Fat2(g: Geo): nat { Fat1(g) + g.fatSec }

  function DataLba(g: Geo): nat { g.start + RSVD + NFAT * g.fatSec }

  /** First sector of cluster `c`; data clusters count from 2. */
  function Clba(g: Geo, c: nat): nat
    requires c >= 2
  {
    DataLba(g) + (c - 2) * g.spc
  }

  // ---- The table -------------------------------------------------------------------------------------

  /** Entry `c` of the table copy at `f`. */
  function Entry(disk: Disk, f: nat, c: nat): u32
    requires Whole(disk) && f + c / PER_SECTOR < |disk|
  {
    FromLe32(disk[f + c / PER_SECTOR][4 * (c % PER_SECTOR)..4 * (c % PER_SECTOR) + 4])
  }

  /** A whole copy of the table. */
  ghost function Table(disk: Disk, f: nat, fatSec: nat): (r: seq<u32>)
    requires Whole(disk) && f + fatSec <= |disk|
    ensures |r| == PER_SECTOR * fatSec
  {
    seq(PER_SECTOR * fatSec, c requires 0 <= c < PER_SECTOR * fatSec => Entry(disk, f, c))
  }

  function PutEntry(disk: Disk, f: nat, c: nat, v: u32): (r: Disk)
    requires Whole(disk) && f + c / PER_SECTOR < |disk|
    ensures Whole(r) && |r| == |disk|
    ensures forall k :: 0 <= k < |r| && k != f + c / PER_SECTOR ==> r[k] == disk[k]
  {
    disk[f + c / PER_SECTOR := Patch(disk[f + c / PER_SECTOR], 4 * (c % PER_SECTOR), ToLe(4, v))]
  }

  lemma PutEntrySets(disk: Disk, f: nat, c: nat, v: u32)
    requires Whole(disk) && f + c / PER_SECTOR < |disk|
    ensures Entry(PutEntry(disk, f, c, v), f, c) == v
  {
    LeRoundTrip32(v);
  }

  lemma PutEntryKeeps(disk: Disk, f: nat, c: nat, v: u32, f': nat, c': nat)
    requires Whole(disk) && f + c / PER_SECTOR < |disk| && f' + c' / PER_SECTOR < |disk|
    requires f' + c' / PER_SECTOR != f + c / PER_SECTOR || (f' == f && c' != c)
    ensures Entry(PutEntry(disk, f, c, v), f', c') == Entry(disk, f', c')
  {
    if f' + c' / PER_SECTOR == f + c / PER_SECTOR {
      var o, o' := 4 * (c % PER_SECTOR), 4 * (c' % PER_SECTOR);
      assert o' + 4 <= o || o + 4 <= o';
      PatchFrame(disk[f + c / PER_SECTOR], o, ToLe(4, v), o', o' + 4);
    }
  }

  /** One entry of one copy is set; the rest of the table is kept. */
  lemma TablePut(disk: Disk, f: nat, fatSec: nat, c: nat, v: u32)
    requires Whole(disk) && f + fatSec <= |disk| && c < PER_SECTOR * fatSec
    ensures Table(PutEntry(disk, f, c, v), f, fatSec) == Table(disk, f, fatSec)[c := v]
  {
    var l, r := Table(PutEntry(disk, f, c, v), f, fatSec), Table(disk, f, fatSec)[c := v];
    PutEntrySets(disk, f, c, v);
    forall c' | 0 <= c' < |l| ensures l[c'] == r[c'] {
      if c' != c { PutEntryKeeps(disk, f, c, v, f, c'); }
    }
  }

  /** Sectors elsewhere do not matter to a copy. */
  lemma TableSame(disk: Disk, disk1: Disk, f: nat, fatSec: nat)
    requires Whole(disk) && Whole(disk1) && |disk1| == |disk| && f + fatSec <= |disk|
    requires forall k :: f <= k < f + fatSec ==> disk1[k] == disk[k]
    ensures Table(disk1, f, fatSec) == Table(disk, f, fatSec)
  {
  }

  /** The value a chain of `nc` clusters from `start` stores for cluster `c`. */
  function Link(start: nat, nc: nat, c: nat): u32
    requires start <= c < start + nc <= EOC_MIN
  {
    if c == start + nc - 1 then EOC else c + 1
  }

  /** A table with the first `i` links of a chain. */
  ghost function WithLinks(t: seq<u32>, start: nat, nc: nat, i: nat): (r: seq<u32>)
    requires i <= nc && start + nc <= |t| && start + nc <= EOC_MIN
    ensures |r| == |t|
  {
    seq(|t|, c requires 0 <= c < |t| => if start <= c < start + i then Link(start, nc, c) else t[c])
  }

  lemma LinkOne(t: seq<u32>, start: nat, nc: nat, i: nat)
    requires i < nc && start + nc <= |t| && start + nc <= EOC_MIN
    ensures WithLinks(t, start, nc, i)[start + i := Link(start, nc, start + i)] == WithLinks(t, start, nc, i + 1)
  {
  }

  /** The first `i` links have been written to both copies, and nothing else. */
  ghost predicate Chained(g: Geo, d0: Disk, d: Disk, start: nat, nc: nat, i: nat)
    requires Whole(d0) && i <= nc && start + nc <= EOC_MIN && start + nc <= PER_SECTOR * g.fatSec && DataLba(g) <= |d0|
  {
    && Whole(d) && |d| == |d0|
    && (forall k :: 0 <= k < |d| && !(Fat1(g) <= k < DataLba(g)) ==> d[k] == d0[k])
    && Table(d, Fat1(g), g.fatSec) == WithLinks(Table(d0, Fat1(g), g.fatSec), start, nc, i)
    && Table(d, Fat2(g), g.fatSec) == WithLinks(Table(d0, Fat2(g), g.fatSec), start, nc, i)
  }

  /** The places for entries below `end` lie on the disk, wherever the copies end. */
  predicate Reach(g: Geo, size: nat, end: nat) { Fat2(g) + end / PER_SECTOR < size }

  function PutLink(g: Geo, d: Disk, start: nat, nc: nat, i: nat): (r: Disk)
    requires Whole(d) && Reach(g, |d|, start + nc) && i < nc && start + nc <= EOC_MIN
    ensures Whole(r) && |r| == |d|
  {
    var v := Link(start, nc, start + i);
    PutEntry(PutEntry(d, Fat1(g), start + i, v), Fat2(g), start + i, v)
  }

  /** The first `i` changes of a disk, one after the other. */
  ghost function Iterate(put: (Disk, nat) -> Disk, d: Disk, i: nat): Disk {
    if i == 0 then d else put(Iterate(put, d, i - 1), i - 1)
  }

  /** What every change keeps holds in the end. */
  lemma {:induction false} IterateKeeps(put: (Disk, nat) -> Disk, inv: (Disk, nat) -> bool, d: Disk, n: nat, i: nat)
    requires i <= n && inv(d, 0) && forall x, j: nat :: inv(x, j) && j < n ==> inv(put(x, j), j + 1)
    ensures inv(Iterate(put, d, i), i)
  {
    if i > 0 { IterateKeeps(put, inv, d, n, i - 1); }
  }

  ghost function Linker(g: Geo, size: nat, start: nat, nc: nat): (Disk, nat) -> Disk {
    (d: Disk, i: nat) =>
      if Whole(d) && |d| == size && Reach(g, size, start + nc) && i < nc && start + nc <= EOC_MIN then PutLink(g, d, start, nc, i) else d
  }

  /** The first `i` links of a chain, in both copies; nothing keeps them within the copies. */
  ghost function PutLinks(g: Geo, d: Disk, start: nat, nc: nat, i: nat): Disk {
    Iterate(Linker(g, |d|, start, nc), d, i)
  }

  /** Within the copies, that is the chain in both of them and nothing else. */
  lemma LinksChain(g: Geo, d: Disk, start: nat, nc: nat)
    requires Whole(d) && DataLba(g) <= |d| && Reach(g, |d|, start + nc)
    requires start + nc <= EOC_MIN && start + nc <= PER_SECTOR * g.fatSec
    ensures Chained(g, d, PutLinks(g, d, start, nc, nc), start, nc, nc)
  {
    var put := Linker(g, |d|, start, nc);
    var inv := (x: Disk, j: nat) => j <= nc && Chained(g, d, x, start, nc, j);
    ChainStart(g, d, start, nc);
    forall x, j: nat | inv(x, j) && j < nc ensures inv(put(x, j), j + 1) { ChainStep(g, d, x, put(x, j), start, nc, j); }
    IterateKeeps(put, inv, d, nc, nc);
  }

  lemma ChainStep(g: Geo, d0: Disk, d: Disk, d': Disk, start: nat, nc: nat, i: nat)
    requires Whole(d0) && i < nc && start + nc <= EOC_MIN && DataLba(g) <= |d0|
    requires start + nc <= PER_SECTOR * g.fatSec && Reach(g, |d0|, start + nc) && Chained(g, d0, d, start, nc, i)
    requires d' == PutLink(g, d, start, nc, i)
    ensures Chained(g, d0, d', start, nc, i + 1)
  {
    PutBoth(g, d, start + i, Link(start, nc, start + i));
    ChainGrows(g, d0, d, d', start, nc, i);
  }

  lemma ChainGrows(g: Geo, d0: Disk, d: Disk, d': Disk, start: nat, nc: nat, i: nat)
    requires Whole(d0) && i < nc && start + nc <= EOC_MIN && DataLba(g) <= |d0|
    requires start + nc <= PER_SECTOR * g.fatSec && Chained(g, d0, d, start, nc, i) && Whole(d') && |d'| == |d|
    requires forall k :: 0 <= k < |d| && !(Fat1(g) <= k < DataLba(g)) ==> d'[k] == d[k]
    requires var c := start + i; var v := Link(start, nc, c);
             && Table(d', Fat1(g), g.fatSec) == Table(d, Fat1(g), g.fatSec)[c := v]
             && Table(d', Fat2(g), g.fatSec) == Table(d, Fat2(g), g.fatSec)[c := v]
    ensures Chained(g, d0, d', start, nc, i + 1)
  {
    LinkOne(Table(d0, Fat1(g), g.fatSec), start, nc, i);
    LinkOne(Table(d0, Fat2(g), g.fatSec), start, nc, i);
  }

  /** The same entry of both copies. */
  lemma PutBoth(g: Geo, d: Disk, c: nat, v: u32)
    requires Whole(d) && DataLba(g) <= |d| && c < PER_SECTOR * g.fatSec
    ensures var d1 := PutEntry(d, Fat1(g), c, v); var d2 := PutEntry(d1, Fat2(g), c, v);
            && (forall k :: 0 <= k < |d| && !(Fat1(g) <= k < DataLba(g)) ==> d2[k] == d[k])
            && Table(d2, Fat1(g), g.fatSec) == Table(d, Fat1(g), g.fatSec)[c := v]
            && Table(d2, Fat2(g), g.fatSec) == Table(d, Fat2(g), g.fatSec)[c := v]
  {
    var d1 := PutEntry(d, Fat1(g), c, v);
    TablePut(d, Fat1(g), g.fatSec, c, v);
    TableSame(d, d1, Fat2(g), g.fatSec);
    TablePut(d1, Fat2(g), g.fatSec, c, v);
    TableSame(d1, PutEntry(d1, Fat2(g), c, v), Fat1(g), g.fatSec);
  }

  lemma ChainStart(g: Geo, d: Disk, start: nat, nc: nat)
    requires Whole(d) && start + nc <= EOC_MIN && start + nc <= PER_SECTOR * g.fatSec && DataLba(g) <= |d|
    ensures Chained(g, d, d, start, nc, 0)
  {
    var t1, t2 := Table(d, Fat1(g), g.fatSec), Table(d, Fat2(g), g.fatSec);
    assert WithLinks(t1, start, nc, 0) == t1 && WithLinks(t2, start, nc, 0) == t2;
  }

  // ---- Following a chain ---------------------------------------------------------------------------------

  /** The clusters a reader visits from `c` on, giving up after `fuel`. */
  ghost function Follow(t: seq<u32>, c: nat, fuel: nat): seq<nat>
    decreases fuel
  {
    if fuel == 0 || c >= |t| then []
    else if t[c] >= EOC_MIN then [c]
    else [c] + Follow(t, t[c], fuel - 1)
  }

  /** `n` consecutive clusters. */
  function Clusters(start: nat, n: nat): seq<nat> { seq(n, i => start + i) }

  /** The table holds a chain of exactly these clusters. */
  ghost predicate HasChain(t: seq<u32>, start: nat, nc: nat) {
    start + nc <= |t| && start + nc <= EOC_MIN
    && forall c: nat | start <= c < start + nc :: t[c] == Link(start, nc, c)
  }

  /** A reader that has enough patience visits exactly the clusters of the chain, from the first to the last. */
  lemma {:induction false} FollowChain(t: seq<u32>, start: nat, nc: nat, i: nat, fuel: nat)
    requires HasChain(t, start, nc) && i < nc && fuel >= nc - i
    ensures Follow(t, start + i, fuel) == Clusters(start + i, nc - i)
    decreases nc - i
  {
    assert t[start + i] == Link(start, nc, start + i);
    if i < nc - 1 {
      FollowChain(t, start, nc, i + 1, fuel - 1);
      assert [start + i] + Clusters(start + i + 1, nc - i - 1) == Clusters(start + i, nc - i);
    } else {
      assert [start + i] == Clusters(start + i, 1);
    }
  }

  /** A finished chain is there, and chains elsewhere are kept. */
  lemma ChainDone(t: seq<u32>, start: nat, nc: nat, start': nat, nc': nat)
    requires start + nc <= |t| && start + nc <= EOC_MIN
    ensures HasChain(WithLinks(t, start, nc, nc), start, nc)
    ensures HasChain(t, start', nc') && (start' + nc' <= start || start + nc <= start') ==>
              HasChain(WithLinks(t, start, nc, nc), start', nc')
  {
  }

  // ---- File contents ------------------------------------------------------------------------------------------

  /** Sector `j` of a file, the last one padded with zeros. */
  function FileSector(data: seq<byte>, j: nat): (r: Sector)
    requires j * SECTOR < |data|
    ensures |r| == SECTOR
  {
    var end := if (j + 1) * SECTOR <= |data| then (j + 1) * SECTOR else |data|;
    var part := data[j * SECTOR..end];
    part + Zeros(SECTOR - |part|)
  }

  function SectorsOf(size: nat): nat { (size + SECTOR - 1) / SECTOR }

  /** The first `m` sectors of the file have been written from `lba` on, and nothing else. */
  ghost predicate Copied(d0: Disk, d: Disk, lba: nat, data: seq<byte>, m: nat)
    requires lba + m <= |d0| && m <= SectorsOf(|data|)
  {
    && |d| == |d0|
    && (forall k :: 0 <= k < |d| && !(lba <= k < lba + m) ==> d[k] == d0[k])
    && (forall j: nat | j < m :: SectorIs(d, lba, data, j))
  }

  ghost predicate SectorIs(d: Disk, lba: nat, data: seq<byte>, j: nat)
    requires j < SectorsOf(|data|)
  {
    lba + j < |d| && d[lba + j] == FileSector(data, j)
  }

  lemma CopyStep(d0: Disk, d: Disk, lba: nat, data: seq<byte>, m: nat)
    requires lba + m < |d0| && m < SectorsOf(|data|) && Copied(d0, d, lba, data, m)
    ensures m * SECTOR < |data|
    ensures Copied(d0, d[lba + m := FileSector(data, m)], lba, data, m + 1)
  {
    var d1 := d[lba + m := FileSector(data, m)];
    forall j: nat | j < m + 1 ensures SectorIs(d1, lba, data, j) {
      if j < m { assert SectorIs(d, lba, data, j); }
    }
  }

  /** The sectors of a file, joined and cut to its size, are its contents. */
  lemma {:induction false} JoinFile(d: Disk, lba: nat, data: seq<byte>, n: nat)
    requires lba + n <= |d| && n <= SectorsOf(|data|) && forall j: nat | j < n :: SectorIs(d, lba, data, j)
    ensures |Join(d, lba, n)| == n * SECTOR
    ensures forall i :: 0 <= i < n * SECTOR ==> Join(d, lba, n)[i] == if i < |data| then data[i] else 0
  {
    if n > 0 {
      JoinFile(d, lba, data, n - 1);
      assert SectorIs(d, lba, data, n - 1);
      var last := FileSector(data, n - 1);
      assert Join(d, lba, n) == Join(d, lba, n - 1) + last;
      forall i | (n - 1) * SECTOR <= i < n * SECTOR ensures Join(d, lba, n)[i] == if i < |data| then data[i] else 0 {
        assert Join(d, lba, n)[i] == last[i - (n - 1) * SECTOR];
      }
    }
  }

  ghost predicate OnDisk(g: Geo, d: Disk, cs: seq<nat>) {
    forall i | 0 <= i < |cs| :: cs[i] >= 2 && Clba(g, cs[i]) + g.spc <= |d|
  }

  /** The bytes of a list of clusters. */
  ghost function ReadClusters(g: Geo, d: Disk, cs: seq<nat>): seq<byte>
    requires OnDisk(g, d, cs)
  {
    if cs == [] then [] else Join(d, Clba(g, cs[0]), g.spc) + ReadClusters(g, d, cs[1..])
  }

  lemma ClusterLba(g: Geo, start: nat, i: nat)
    requires start >= 2
    ensures Clba(g, start + i) == Clba(g, start) + i * g.spc
  {
    assert (start + i - 2) * g.spc == (start - 2) * g.spc + i * g.spc;
  }

  lemma ClusterBelow(g: Geo, c: nat, c': nat)
    requires 2 <= c <= c'
    ensures Clba(g, c) <= Clba(g, c')
  {
    ClusterLba(g, c, c' - c);
    assert (c' - c) * g.spc >= 0;
  }

  lemma ClusterOnDisk(g: Geo, d: Disk, start: nat, n: nat)
    requires start >= 2 && Clba(g, start + n) <= |d|
    ensures OnDisk(g, d, Clusters(start, n))
  {
    var cs := Clusters(start, n);
    forall i | 0 <= i < |cs| ensures cs[i] >= 2 && Clba(g, cs[i]) + g.spc <= |d| {
      ClusterLba(g, start + i, 1);
      ClusterBelow(g, start + i + 1, start + n);
    }
  }

  /** Consecutive clusters are consecutive sectors. */
  lemma {:induction false} ReadRun(g: Geo, d: Disk, start: nat, n: nat)
    requires start >= 2 && Clba(g, start + n) <= |d|
    ensures OnDisk(g, d, Clusters(start, n))
    ensures Clba(g, start) + n * g.spc == Clba(g, start + n)
    ensures ReadClusters(g, d, Clusters(start, n)) == Join(d, Clba(g, start), n * g.spc)
    decreases n
  {
    ClusterOnDisk(g, d, start, n);
    ClusterLba(g, start, n);
    if n > 0 {
      ReadRun(g, d, start + 1, n - 1);
      assert Clusters(start, n)[1..] == Clusters(start + 1, n - 1);
      JoinClusters(g, d, start, n);
    }
  }

  lemma JoinClusters(g: Geo, d: Disk, start: nat, n: nat)
    requires start >= 2 && n > 0 && Clba(g, start) + n * g.spc <= |d|
    ensures n * g.spc == g.spc + (n - 1) * g.spc && Clba(g, start + 1) == Clba(g, start) + g.spc
    ensures Join(d, Clba(g, start), n * g.spc)
         == Join(d, Clba(g, start), g.spc) + Join(d, Clba(g, start + 1), (n - 1) * g.spc)
  {
    ClusterLba(g, start, 1);
    assert n * g.spc == g.spc + (n - 1) * g.spc;
    JoinJoin(d, Clba(g, start), g.spc, (n - 1) * g.spc);
  }

  /** Clusters a file of `size` bytes gets. */
  function ClustersFor(g: Geo, size: nat): (r: nat)
    requires g.spc >= 1
    ensures r >= 1
  {
    var cb := g.spc * SECTOR;
    var n := (size + cb - 1) / cb;
    if size > 0 && n >= 1 then n else 1
  }

  lemma ClustersHold(g: Geo, size: nat)
    requires g.spc >= 1
    ensures SectorsOf(size) <= ClustersFor(g, size) * g.spc && size <= ClustersFor(g, size) * g.spc * SECTOR
  {
    var cb := g.spc * SECTOR;
    var n := (size + cb - 1) / cb;
    assert cb * n + (size + cb - 1) % cb == size + cb - 1;
    assert cb * n >= size;
    assert cb * n == n * g.spc * SECTOR;
  }
}
