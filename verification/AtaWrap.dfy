/** Addresses beyond 32 bits on an ATA disk: what the batches then read and write, and exactly when that is wrong. */
module AtaWrap {
  import opened Bytes
  import opened Sectors
  import opened Drives

  /** The batch at sector `d` of the run, cut to 32 bits, leaves the disk. */
  ghost predicate Out(size: nat, lba: nat, count: nat, d: nat) {
    d < count && d % BATCH == 0 && (lba + d) % LBA32 + Min(count - d, BATCH) > size
  }

  /** The batch starts reached from `d` on: `d` is one of them, or the end. */
  ghost predicate Start(count: nat, d: nat) { d <= count && (d < count ==> d % BATCH == 0) }

  /** Sectors of the run in the batches before the first that leaves the disk. */
  ghost function Done(size: nat, lba: nat, count: nat, d: nat): (r: nat)
    requires Start(count, d)
    ensures d <= r <= count && Start(count, r)
    decreases count - d
  {
    if d == count || Out(size, lba, count, d) then d else Done(size, lba, count, d + Min(count - d, BATCH))
  }

  lemma {:induction false} DoneIsFirst(size: nat, lba: nat, count: nat, d: nat)
    requires Start(count, d)
    ensures var r := Done(size, lba, count, d);
            (r < count ==> Out(size, lba, count, r)) && forall e :: d <= e < r ==> !Out(size, lba, count, e)
    decreases count - d
  {
    if d < count && !Out(size, lba, count, d) {
      var n := Min(count - d, BATCH);
      DoneIsFirst(size, lba, count, d + n);
      forall e | d <= e < d + n ensures !Out(size, lba, count, e) { if e != d { Between(d, e); } }
    }
  }

  lemma Between(d: nat, e: nat)
    requires d % BATCH == 0 && d < e < d + BATCH
    ensures e % BATCH != 0
  {
  }

  // ---- Reads --------------------------------------------------------------------------------------------

  /** A read fails if and only if some batch leaves the disk. */
  lemma {:induction false} ReadFails(disk: Disk, lba: nat, count: nat, d: nat)
    requires Start(count, d)
    ensures ReadBatches(disk, lba, count, d).Some? <==> Done(|disk|, lba, count, d) == count
    decreases count - d
  {
    if d < count { ReadFails(disk, lba, count, d + Min(count - d, BATCH)); }
  }

  /** Reading in batches is reading at once if and only if the addresses fit in 32 bits, or some wrapped batch leaves
      the disk; otherwise the read succeeds behind the end of the disk. */
  lemma ReadExact(disk: Disk, lba: nat, count: nat)
    requires |disk| <= LBA32 && count > 0
    ensures ReadBatches(disk, lba, count, 0) == Fetch(disk, lba, count)
       <==> lba + count <= LBA32 || exists d :: Out(|disk|, lba, count, d)
  {
    ReadFails(disk, lba, count, 0);
    DoneIsFirst(|disk|, lba, count, 0);
    if lba + count <= LBA32 { ReadBatchesIs(disk, lba, count, 0); }
  }

  /** What such a read returns: sector by sector, the disk at the address cut to 32 bits. */
  ghost function Wrapped(disk: Disk, lba: nat, n: nat): seq<byte> {
    if n == 0 then [] else Wrapped(disk, lba, n - 1) + SectorAt(disk, lba + (n - 1))
  }

  ghost function SectorAt(disk: Disk, lba: nat): seq<byte> { if lba % LBA32 < |disk| then disk[lba % LBA32] else [] }

  ghost predicate Shows(disk: Disk, lba: nat, x: nat, j: nat) { x + j < |disk| && SectorAt(disk, lba + j) == disk[x + j] }

  lemma {:induction false} WrappedIsJoin(disk: Disk, lba: nat, x: nat, n: nat)
    requires x + n <= |disk| && forall j: nat :: j < n ==> Shows(disk, lba, x, j)
    ensures Wrapped(disk, lba, n) == Join(disk, x, n)
  {
    if n > 0 {
      WrappedIsJoin(disk, lba, x, n - 1);
      assert Shows(disk, lba, x, n - 1);
    }
  }

  lemma BatchIsJoin(disk: Disk, lba: nat, n: nat)
    requires |disk| <= LBA32 && lba % LBA32 + n <= |disk|
    ensures Wrapped(disk, lba, n) == Join(disk, lba % LBA32, n)
  {
    forall j: nat | j < n ensures Shows(disk, lba, lba % LBA32, j) { CutPlus(lba, j); }
    WrappedIsJoin(disk, lba, lba % LBA32, n);
  }

  /** Within a batch that lies on the disk no address wraps again. */
  lemma CutPlus(a: nat, j: nat)
    requires a % LBA32 + j < LBA32
    ensures (a + j) % LBA32 == a % LBA32 + j
  {
  }

  lemma {:induction false} WrappedWrapped(disk: Disk, lba: nat, a: nat, b: nat)
    ensures Wrapped(disk, lba, a + b) == Wrapped(disk, lba, a) + Wrapped(disk, lba + a, b)
  {
    if b > 0 {
      WrappedWrapped(disk, lba, a, b - 1);
      assert lba + (a + b - 1) == lba + a + (b - 1);
    }
  }

  /** One batch read, for any reader and any run of sectors. */
  ghost predicate Turned(read: nat -> Option<seq<byte>>, run: (nat, nat) -> seq<byte>, count: nat, d: nat) {
    Start(count, d) && d < count ==>
      var n := Min(count - d, BATCH);
      read(d) == Then(run(d, n), read(d + n)) && run(d, count - d) == run(d, n) + run(d + n, count - d - n)
  }

  lemma {:induction false} Chained(read: nat -> Option<seq<byte>>, run: (nat, nat) -> seq<byte>, count: nat, d: nat)
    requires Start(count, d) && read(count) == Some([]) && run(count, 0) == []
    requires forall e: nat :: d <= e < count ==> Turned(read, run, count, e)
    ensures read(d) == Some(run(d, count - d))
    decreases count - d
  {
    if d < count {
      assert Turned(read, run, count, d);
      Chained(read, run, count, d + Min(count - d, BATCH));
    }
  }

  ghost function Reader(disk: Disk, lba: nat, count: nat): nat -> Option<seq<byte>> {
    (d: nat) => if d <= count then ReadBatches(disk, lba, count, d) else None
  }

  ghost function Runner(disk: Disk, lba: nat): (nat, nat) -> seq<byte> { (d: nat, n: nat) => Wrapped(disk, lba + d, n) }

  /** A read that no batch fails returns the sectors at the addresses cut to 32 bits. */
  lemma ReadWraps(disk: Disk, lba: nat, count: nat)
    requires |disk| <= LBA32 && forall d :: !Out(|disk|, lba, count, d)
    ensures ReadBatches(disk, lba, count, 0) == Some(Wrapped(disk, lba, count))
  {
    var read, run := Reader(disk, lba, count), Runner(disk, lba);
    forall d: nat | d < count ensures Turned(read, run, count, d) { TurnAt(disk, lba, count, d); }
    Ends(disk, lba, count);
    Chained(read, run, count, 0);
    assert lba + 0 == lba;
  }

  lemma Ends(disk: Disk, lba: nat, count: nat)
    ensures Reader(disk, lba, count)(count) == Some([]) && Runner(disk, lba)(count, 0) == []
  {
    assert Wrapped(disk, lba + count, 0) == [];
  }

  lemma TurnAt(disk: Disk, lba: nat, count: nat, d: nat)
    requires |disk| <= LBA32 && !Out(|disk|, lba, count, d)
    ensures Turned(Reader(disk, lba, count), Runner(disk, lba), count, d)
  {
    if d < count && d % BATCH == 0 { ReadTurn(disk, lba, count, d); }
  }

  lemma ReadTurn(disk: Disk, lba: nat, count: nat, d: nat)
    requires d < count && d % BATCH == 0 && |disk| <= LBA32 && !Out(|disk|, lba, count, d)
    ensures var n := Min(count - d, BATCH);
            && ReadBatches(disk, lba, count, d) == Then(Wrapped(disk, lba + d, n), ReadBatches(disk, lba, count, d + n))
            && Wrapped(disk, lba + d, count - d) == Wrapped(disk, lba + d, n) + Wrapped(disk, lba + (d + n), count - d - n)
  {
    var n := Min(count - d, BATCH);
    BatchIsJoin(disk, lba + d, n);
    WrappedWrapped(disk, lba + d, n, count - d - n);
    assert lba + d + n == lba + (d + n);
  }

  // ---- Writes --------------------------------------------------------------------------------------------

  function At(lba: nat, t: nat): nat { (lba + t) % LBA32 }

  /** Sector `t` of the data lies on the disk at its address cut to 32 bits. */
  ghost predicate Landed(disk: Disk, lba: nat, data: seq<byte>, t: nat) {
    At(lba, t) < |disk| && t * SECTOR + SECTOR <= |data| && disk[At(lba, t)] == data[t * SECTOR..t * SECTOR + SECTOR]
  }

  /** Sector `i` is none that the first `k` sectors of the data go to. */
  ghost predicate Missed(lba: nat, k: nat, i: nat) { forall t: nat :: t < k ==> At(lba, t) != i }

  /** The first `k` sectors of the data are on the disk, and nothing else has changed. */
  ghost predicate Spread(was: Disk, now: Disk, lba: nat, data: seq<byte>, k: nat) {
    && |now| == |was| && (forall t: nat :: t < k ==> Landed(now, lba, data, t))
    && (forall i :: 0 <= i < |was| && Missed(lba, k, i) ==> now[i] == was[i])
  }

  lemma AtApart(lba: nat, t: nat, u: nat)
    requires t < u < t + LBA32
    ensures At(lba, t) != At(lba, u)
  {
  }

  lemma PutSpreads(was: Disk, disk: Disk, lba: nat, data: seq<byte>, count: nat, d: nat)
    requires |was| <= LBA32 && count <= LBA32 && count * SECTOR <= |data| && d < count
    requires Spread(was, disk, lba, data, d) && At(lba, d) + Min(count - d, BATCH) <= |disk|
    ensures var n := Min(count - d, BATCH);
            Spread(was, Put(disk, At(lba, d), n, data[d * SECTOR..(d + n) * SECTOR]).disk, lba, data, d + n)
  {
    var n := Min(count - d, BATCH);
    var part := data[d * SECTOR..(d + n) * SECTOR];
    var r := Put(disk, At(lba, d), n, part).disk;
    forall t: nat | t < d + n ensures Landed(r, lba, data, t) {
      if t < d { OldLands(disk, lba, data, d, n, part, t); } else { NewLands(disk, lba, data, d, n, part, t); }
    }
    forall i | 0 <= i < |was| && Missed(lba, d + n, i) ensures r[i] == was[i] { MissedStays(disk, lba, d, n, part, i); }
  }

  lemma NewLands(disk: Disk, lba: nat, data: seq<byte>, d: nat, n: nat, part: seq<byte>, t: nat)
    requires |disk| <= LBA32 && At(lba, d) + n <= |disk| && d <= t < d + n && (d + n) * SECTOR <= |data|
    requires part == data[d * SECTOR..(d + n) * SECTOR]
    ensures Landed(Store(disk, At(lba, d), n, SECTOR, part), lba, data, t)
  {
    CutPlus(lba + d, t - d);
    StoredSlice(disk, At(lba, d), n, SECTOR, part, t - d);
    SliceOfSlice(data, d * SECTOR, (d + n) * SECTOR, (t - d) * SECTOR, (t - d) * SECTOR + SECTOR);
  }

  lemma OldLands(disk: Disk, lba: nat, data: seq<byte>, d: nat, n: nat, part: seq<byte>, t: nat)
    requires |disk| <= LBA32 && At(lba, d) + n <= |disk| && t < d && d + n <= LBA32 && n * SECTOR <= |part|
    requires Landed(disk, lba, data, t)
    ensures Landed(Store(disk, At(lba, d), n, SECTOR, part), lba, data, t)
  {
    Outside(lba, t, d, n);
  }

  lemma Outside(lba: nat, t: nat, d: nat, n: nat)
    requires t < d && d + n <= LBA32 && At(lba, d) + n <= LBA32
    ensures !(At(lba, d) <= At(lba, t) < At(lba, d) + n)
  {
    var j := At(lba, t) - At(lba, d);
    if 0 <= j < n {
      CutPlus(lba + d, j);
      AtApart(lba, t, d + j);
    }
  }

  lemma Hit(lba: nat, d: nat, n: nat, i: nat)
    requires At(lba, d) <= i < At(lba, d) + n <= LBA32
    ensures !Missed(lba, d + n, i)
  {
    CutPlus(lba + d, i - At(lba, d));
    assert At(lba, d + (i - At(lba, d))) == i;
  }

  lemma MissedStays(disk: Disk, lba: nat, d: nat, n: nat, part: seq<byte>, i: nat)
    requires |disk| <= LBA32 && At(lba, d) + n <= |disk| && n * SECTOR <= |part| && i < |disk| && Missed(lba, d + n, i)
    ensures Missed(lba, d, i) && Store(disk, At(lba, d), n, SECTOR, part)[i] == disk[i]
  {
    if At(lba, d) <= i < At(lba, d) + n { Hit(lba, d, n, i); }
  }

  /** What a write in batches does, whatever the address: every sector of the batches before the first that leaves the
      disk goes to its address cut to 32 bits, and nothing else changes; it succeeds if and only if no batch leaves. */
  lemma {:induction false} WriteSpreads(was: Disk, disk: Disk, lba: nat, count: nat, data: seq<byte>, d: nat)
    requires Start(count, d) && |was| <= LBA32 && count <= LBA32 && count * SECTOR <= |data| && Spread(was, disk, lba, data, d)
    ensures var r := WriteBatches(disk, lba, count, data, d); var k := Done(|was|, lba, count, d);
            r.ok == (k == count) && Spread(was, r.disk, lba, data, k)
    decreases count - d
  {
    if d < count && !Out(|was|, lba, count, d) {
      var n := Min(count - d, BATCH);
      PutSpreads(was, disk, lba, data, count, d);
      WriteSpreads(was, Put(disk, At(lba, d), n, data[d * SECTOR..(d + n) * SECTOR]).disk, lba, count, data, d + n);
    }
  }

  /** The first `k` sectors go to sectors of the run itself. */
  ghost predicate Inside(lba: nat, count: nat, k: nat) { forall t: nat :: t < k ==> lba <= At(lba, t) < lba + count }

  lemma InsideExact(lba: nat, count: nat, k: nat)
    requires k <= count <= LBA32
    ensures Inside(lba, count, k) <==> k == 0 || lba + k <= LBA32
  {
    if k > 0 && lba + k > LBA32 {
      var t := if lba >= LBA32 then 0 else LBA32 - lba;
      assert At(lba, t) < lba;
    }
  }

  lemma LastLands(disk: Disk, lba: nat, data: seq<byte>, k: nat)
    requires k > 0 && lba + k <= LBA32 && Landed(disk, lba, data, k - 1)
    ensures lba + k <= |disk|
  {
    assert (lba + (k - 1)) % LBA32 == lba + (k - 1);
  }

  /** A write in batches stays within its run if and only if the batches it stores end below 2^32, and then it succeeds
      only on the disk; otherwise the sectors past that are stored at the start of the disk. */
  lemma WriteExact(disk: Disk, lba: nat, count: nat, data: seq<byte>)
    requires |disk| <= LBA32 && 0 < count <= LBA32 && count * SECTOR <= |data|
    ensures var r := WriteBatches(disk, lba, count, data, 0); var k := Done(|disk|, lba, count, 0);
            && r.ok == (k == count) && Spread(disk, r.disk, lba, data, k)
            && (Inside(lba, count, k) <==> k == 0 || lba + k <= LBA32)
            && (Inside(lba, count, k) && r.ok ==> lba + count <= |disk|)
  {
    WriteSpreads(disk, disk, lba, count, data, 0);
    var k := Done(|disk|, lba, count, 0);
    InsideExact(lba, count, k);
    if k == count && lba + k <= LBA32 { LastLands(WriteBatches(disk, lba, count, data, 0).disk, lba, data, k); }
  }

  /** A sector written behind the end of the disk overwrites one at its start. */
  lemma HighWriteOverwrites(disk: Disk, x: nat, data: seq<byte>)
    requires x < |disk| <= LBA32 && |data| == SECTOR
    ensures var r := WriteBatches(disk, LBA32 + x, 1, data, 0); r.ok && r.disk == disk[x := data]
  {
    WriteSpreads(disk, disk, LBA32 + x, 1, data, 0);
    var r := WriteBatches(disk, LBA32 + x, 1, data, 0).disk;
    assert At(LBA32 + x, 0) == x;
    assert Landed(r, LBA32 + x, data, 0) && data[0..SECTOR] == data;
    forall i | 0 <= i < |disk| && i != x ensures r[i] == disk[i] { assert Missed(LBA32 + x, 1, i); }
  }
}
