/** The unified block layer: reads and writes of sector runs, in batches on ATA disks
    and in one command on AHCI disks. */
module Drives {
  import opened Bytes
  import opened Sectors

  const SECTOR: nat := 512
  const BATCH: nat := 128
  const LBA32: nat := 0x1_0000_0000
  const LBA64: nat := 0x1_0000_0000_0000_0000

  datatype Kind = Ata | Ahci

  ghost predicate Whole(disk: Disk) { forall i :: 0 <= i < |disk| ==> |disk[i]| == SECTOR }

  // ---- One command to the device -----------------------------------------------------------------

  function Fetch(disk: Disk, lba: nat, n: nat): Option<seq<byte>> {
    if lba + n <= |disk| then Some(Join(disk, lba, n)) else None
  }

  datatype Written = Written(disk: Disk, ok: bool)

  function Put(disk: Disk, lba: nat, n: nat, data: seq<byte>): Written
    requires n * SECTOR <= |data|
  {
    if lba + n <= |disk| then Written(Store(disk, lba, n, SECTOR, data), true) else Written(disk, false)
  }

  // ---- The ATA batch loops -------------------------------------------------------------------------

  /** `read` on an ATA disk from sector `done` on: the address is cut to 32 bits. */
  function ReadBatches(disk: Disk, lba: nat, count: nat, done: nat): (r: Option<seq<byte>>)
    requires done <= count
    decreases count - done
  {
    if done == count then Some([]) else
    var n := Min(count - done, BATCH);
    match Fetch(disk, (lba + done) % LBA32, n)
    case None => None
    case Some(head) => Then(head, ReadBatches(disk, lba, count, done + n))
  }

  function Then(got: seq<byte>, rest: Option<seq<byte>>): Option<seq<byte>> {
    match rest case None => None case Some(more) => Some(got + more)
  }

  /** `write` on an ATA disk from sector `done` on. */
  function WriteBatches(disk: Disk, lba: nat, count: nat, data: seq<byte>, done: nat): (r: Written)
    requires done <= count && count * SECTOR <= |data|
    ensures |r.disk| == |disk|
    decreases count - done
  {
    if done == count then Written(disk, true) else
    var n := Min(count - done, BATCH);
    var w := Put(disk, (lba + done) % LBA32, n, data[done * SECTOR..(done + n) * SECTOR]);
    if !w.ok then w else WriteBatches(w.disk, lba, count, data, done + n)
  }

  lemma {:induction false} JoinJoin(disk: Disk, lba: nat, a: nat, b: nat)
    requires lba + a + b <= |disk|
    ensures Join(disk, lba, a + b) == Join(disk, lba, a) + Join(disk, lba + a, b)
  {
    if b > 0 {
      JoinJoin(disk, lba, a, b - 1);
      assert Join(disk, lba, a) + (Join(disk, lba + a, b - 1) + disk[lba + a + b - 1])
          == (Join(disk, lba, a) + Join(disk, lba + a, b - 1)) + disk[lba + a + b - 1];
    }
  }

  /** Two neighbouring stores are one. */
  lemma {:induction false} StoreStore(disk: Disk, lba: nat, a: nat, b: nat, data: seq<byte>)
    requires lba + a + b <= |disk| && (a + b) * SECTOR <= |data|
    ensures Store(Store(disk, lba, a, SECTOR, data), lba + a, b, SECTOR, data[a * SECTOR..(a + b) * SECTOR])
         == Store(disk, lba, a + b, SECTOR, data)
  {
    var first := Store(disk, lba, a, SECTOR, data);
    var part := data[a * SECTOR..(a + b) * SECTOR];
    var l, r := Store(first, lba + a, b, SECTOR, part), Store(disk, lba, a + b, SECTOR, data);
    forall i | 0 <= i < |disk| ensures l[i] == r[i] {
      if lba <= i < lba + a {
        StoredSlice(disk, lba, a, SECTOR, data, i - lba);
        StoredSlice(disk, lba, a + b, SECTOR, data, i - lba);
        assert HoldsSlice(first, lba, i - lba, SECTOR, data) && HoldsSlice(r, lba, i - lba, SECTOR, data);
      } else if lba + a <= i < lba + a + b {
        var j := i - lba - a;
        StoredSlice(first, lba + a, b, SECTOR, part, j);
        StoredSlice(disk, lba, a + b, SECTOR, data, a + j);
        assert HoldsSlice(l, lba + a, j, SECTOR, part) && HoldsSlice(r, lba, a + j, SECTOR, data);
        SliceOfSlice(data, a * SECTOR, (a + b) * SECTOR, j * SECTOR, j * SECTOR + SECTOR);
      }
    }
  }

  /** Reading in batches is reading at once, as long as addresses fit in 32 bits. */
  lemma {:induction false} ReadBatchesIs(disk: Disk, lba: nat, count: nat, done: nat)
    requires done <= count && lba + count <= LBA32
    ensures ReadBatches(disk, lba, count, done)
         == if done == count || lba + count <= |disk| then Some(JoinRest(disk, lba, count, done)) else None
    decreases count - done
  {
    if done < count {
      var n := Min(count - done, BATCH);
      ReadBatchesIs(disk, lba, count, done + n);
      ReadStep(disk, lba, count, done);
    }
  }

  lemma ReadStep(disk: Disk, lba: nat, count: nat, done: nat)
    requires done < count && lba + count <= LBA32
    ensures var n := Min(count - done, BATCH);
            && (lba + done) % LBA32 == lba + done
            && (lba + count <= |disk| ==>
                  JoinRest(disk, lba, count, done) == Join(disk, lba + done, n) + JoinRest(disk, lba, count, done + n))
  {
    var n := Min(count - done, BATCH);
    if lba + count <= |disk| { JoinJoin(disk, lba + done, n, count - done - n); }
  }

  ghost function JoinRest(disk: Disk, lba: nat, count: nat, done: nat): seq<byte>
    requires done <= count
  {
    if lba + count <= |disk| then Join(disk, lba + done, count - done) else []
  }

  /** Sectors the batches before the first failing one hold. */
  ghost function Reached(disk: Disk, lba: nat, count: nat): (r: nat)
    ensures r <= count
  {
    if lba + count <= |disk| then count
    else if lba > |disk| then 0
    else (|disk| - lba) / BATCH * BATCH
  }

  /** Writing in batches succeeds if and only if the run lies on the disk, and then writes exactly the run;
      otherwise the whole batches that still fit have been written. */
  lemma {:induction false} WriteBatchesIs(disk: Disk, lba: nat, count: nat, data: seq<byte>, done: nat)
    requires count * SECTOR <= |data| && lba + count <= LBA32
    requires done <= count && done <= Reached(disk, lba, count) && (done < count ==> done % BATCH == 0)
    ensures var r := WriteBatches(Stored(disk, lba, count, data, done), lba, count, data, done);
            r == Written(Stored(disk, lba, count, data, Reached(disk, lba, count)), count == 0 || lba + count <= |disk|)
    decreases count - done
  {
    if done < count {
      var n := Min(count - done, BATCH);
      ReachedStep(disk, lba, count, done);
      WriteStep(Stored(disk, lba, count, data, done), lba, count, data, done);
      if lba + done + n <= |disk| {
        StoredOn(disk, lba, count, data, done);
        WriteBatchesIs(disk, lba, count, data, done + n);
      }
    }
  }

  /** One batch, at an address that fits in 32 bits. */
  lemma WriteStep(disk: Disk, lba: nat, count: nat, data: seq<byte>, done: nat)
    requires count * SECTOR <= |data| && done < count && lba + count <= LBA32
    ensures var n := Min(count - done, BATCH);
            var w := Put(disk, lba + done, n, data[done * SECTOR..(done + n) * SECTOR]);
            WriteBatches(disk, lba, count, data, done) == if w.ok then WriteBatches(w.disk, lba, count, data, done + n) else w
  {
    assert (lba + done) % LBA32 == lba + done;
  }

  lemma ReachedStep(disk: Disk, lba: nat, count: nat, done: nat)
    requires done < count && done <= Reached(disk, lba, count) && done % BATCH == 0
    ensures var n := Min(count - done, BATCH);
            if lba + done + n <= |disk|
            then done + n <= Reached(disk, lba, count) && (done + n < count ==> (done + n) % BATCH == 0)
            else Reached(disk, lba, count) == done
  {
  }

  lemma StoredOn(disk: Disk, lba: nat, count: nat, data: seq<byte>, done: nat)
    requires count * SECTOR <= |data| && done < count
    requires var n := Min(count - done, BATCH); done + n <= Reached(disk, lba, count) && lba + done + n <= |disk|
    ensures var n := Min(count - done, BATCH);
            Put(Stored(disk, lba, count, data, done), lba + done, n, data[done * SECTOR..(done + n) * SECTOR])
            == Written(Stored(disk, lba, count, data, done + n), true)
  {
    StoreStore(disk, lba, done, Min(count - done, BATCH), data);
  }

  /** The first `k` sectors of the run written. */
  ghost function Stored(disk: Disk, lba: nat, count: nat, data: seq<byte>, k: nat): (r: Disk)
    requires count * SECTOR <= |data| && k <= Reached(disk, lba, count)
    ensures |r| == |disk|
  {
    if k == 0 then disk else Store(disk, lba, k, SECTOR, data)
  }

  /** Beyond 32 bits the address wraps: a read behind the end of the disk returns a sector from its start. */
  lemma HighAddressAliases(disk: Disk, x: nat)
    requires x < |disk| <= LBA32
    ensures LBA32 + x >= |disk| && ReadBatches(disk, LBA32 + x, 1, 0) == Some(disk[x])
  {
    assert (LBA32 + x) % LBA32 == x;
    assert Join(disk, x, 1) == Join(disk, x, 0) + disk[x] == disk[x];
    assert ReadBatches(disk, LBA32 + x, 1, 1) == Some([]);
    assert disk[x] + [] == disk[x];
  }

  // ---- The drive ---------------------------------------------------------------------------------------

  class Drive {
    const kind: Kind
    var sectors: Disk

    ghost predicate Valid()
      reads this
    {
      Whole(sectors)
    }

    /** Addresses the driver passes on unchanged. */
    predicate InReach(lba: u64, count: u32) { kind.Ahci? || lba + count <= LBA32 }

    /** `read` into `buf[at..at + len]`. */
    method Read(lba: u64, count: u32, buf: array<byte>, at: nat, len: nat) returns (ok: bool)
      requires Valid() && at + len <= buf.Length
      modifies buf
      ensures InReach(lba, count) ==> (ok <==> count * SECTOR <= len && (lba + count <= |sectors| || (kind.Ata? && count == 0)))
      ensures InReach(lba, count) && ok && count > 0 ==> buf[..] == Patch(old(buf[..]), at, Run(lba, count))
      ensures forall i :: 0 <= i < buf.Length && !(at <= i < at + len) ==> buf[i] == old(buf[i])
      ensures !ok && count * SECTOR > len ==> buf[..] == old(buf[..])
      ensures kind.Ata? && count * SECTOR <= len ==>
                var want := ReadBatches(sectors, lba, count, 0);
                ok == want.Some? && (ok ==> |want.value| == count * SECTOR && buf[..] == Patch(old(buf[..]), at, want.value))
    {
      if len < count * SECTOR { return false; }
      if kind.Ata? {
        ok := ReadAta(lba, count, buf, at);
        ReadEnds(sectors, lba, count);
      } else {
        var part := Fetch(sectors, lba, count);
        if part.None? { return false; }
        JoinLength(sectors, lba, count, SECTOR);
        CopyIn(buf, at, part.value);
        ok := true;
      }
    }

    method ReadAta(lba: u64, count: u32, buf: array<byte>, at: nat) returns (ok: bool)
      requires Valid() && at + count * SECTOR <= buf.Length
      modifies buf
      ensures var want := ReadBatches(sectors, lba, count, 0);
              ok == want.Some? && (ok ==> |want.value| == count * SECTOR && buf[..] == Patch(old(buf[..]), at, want.value))
      ensures forall i :: 0 <= i < buf.Length && !(at <= i < at + count * SECTOR) ==> buf[i] == old(buf[i])
    {
      var done := 0;
      ghost var want := ReadBatches(sectors, lba, count, 0);
      ghost var got: seq<byte> := [];
      ghost var was := buf[..];
      assert Patch(was, at, got) == was;
      ThenFirst(want);
      while done < count
        invariant ReadSoFar(sectors, lba, count, done, want, got) && buf[..] == Patch(was, at, got)
      {
        var n := Min(count - done, BATCH);
        var part := Fetch(sectors, (lba + done) % LBA32, n);
        ReadOn(sectors, lba, count, done, want, got);
        if part.None? {
          OutsidePatch(was, at, got, buf[..], count * SECTOR);
          return false;
        }
        CopyNext(buf, at + done * SECTOR, part.value, was, at, got);
        got := got + part.value;
        done := done + n;
      }
      assert got + [] == got;
      OutsidePatch(was, at, got, buf[..], count * SECTOR);
      ok := true;
    }

    ghost function Run(lba: u64, count: u32): (r: seq<byte>)
      requires Valid() && lba + count <= |sectors|
      reads this
      ensures |r| == count * SECTOR
    {
      JoinLength(sectors, lba, count, SECTOR);
      Join(sectors, lba, count)
    }

    /** `write` of the first `count` sectors of `data`. */
    method Write(lba: u64, count: u32, data: seq<byte>) returns (ok: bool)
      requires Valid()
      modifies this`sectors
      ensures Valid() && |sectors| == |old(sectors)|
      ensures InReach(lba, count) ==>
                (ok <==> count * SECTOR <= |data| && (lba + count <= |sectors| || (kind.Ata? && count == 0)))
      ensures InReach(lba, count) && ok && count > 0 ==> sectors == Store(old(sectors), lba, count, SECTOR, data)
      ensures InReach(lba, count) && !ok && count * SECTOR <= |data| ==>
                sectors == if kind.Ahci? then old(sectors)
                           else Stored(old(sectors), lba, count, data, Reached(old(sectors), lba, count))
      ensures !ok && count * SECTOR > |data| ==> sectors == old(sectors)
      ensures kind.Ata? && count * SECTOR <= |data| ==> WriteBatches(old(sectors), lba, count, data, 0) == Written(sectors, ok)
    {
      if |data| < count * SECTOR { return false; }
      if kind.Ata? {
        var done := 0;
        ghost var want := WriteBatches(sectors, lba, count, data, 0);
        while done < count
          invariant done <= count && Valid() && |sectors| == |old(sectors)|
          invariant want == WriteBatches(sectors, lba, count, data, done)
        {
          var n := Min(count - done, BATCH);
          var w := Put(sectors, (lba + done) % LBA32, n, data[done * SECTOR..(done + n) * SECTOR]);
          if !w.ok { WriteEnds(old(sectors), lba, count, data); return false; }
          StoreWhole(sectors, (lba + done) % LBA32, n, data[done * SECTOR..(done + n) * SECTOR]);
          sectors := w.disk;
          done := done + n;
        }
        WriteEnds(old(sectors), lba, count, data);
        ok := true;
      } else {
        var w := Put(sectors, lba, count, data);
        if !w.ok { return false; }
        StoreWhole(sectors, lba, count, data);
        sectors := w.disk;
        ok := true;
      }
    }
  }

  /** `got` is what the batches before sector `done` have read of `want`. */
  ghost predicate ReadSoFar(disk: Disk, lba: nat, count: nat, done: nat, want: Option<seq<byte>>, got: seq<byte>) {
    done <= count && |got| == done * SECTOR && want == Then(got, ReadBatches(disk, lba, count, done))
  }

  lemma ReadOn(disk: Disk, lba: nat, count: nat, done: nat, want: Option<seq<byte>>, got: seq<byte>)
    requires Whole(disk) && done < count && ReadSoFar(disk, lba, count, done, want, got)
    ensures var n := Min(count - done, BATCH); var part := Fetch(disk, (lba + done) % LBA32, n);
            if part.None? then want.None?
            else |part.value| == n * SECTOR && ReadSoFar(disk, lba, count, done + n, want, got + part.value)
  {
    var n := Min(count - done, BATCH);
    var part := Fetch(disk, (lba + done) % LBA32, n);
    if part.Some? {
      JoinLength(disk, (lba + done) % LBA32, n, SECTOR);
      ThenMore(got, part.value, ReadBatches(disk, lba, count, done + n));
    }
  }

  /** `copy_from_slice` into part of a buffer. */
  method CopyIn(buf: array<byte>, at: nat, data: seq<byte>)
    requires at + |data| <= buf.Length
    modifies buf
    ensures buf[..] == Patch(old(buf[..]), at, data)
  {
    forall i | 0 <= i < |data| { buf[at + i] := data[i]; }
  }

  /** The next part behind what has been copied already. */
  method CopyNext(buf: array<byte>, at: nat, part: seq<byte>, ghost was: seq<byte>, ghost start: nat, ghost got: seq<byte>)
    requires at == start + |got| && at + |part| <= buf.Length == |was| && buf[..] == Patch(was, start, got)
    modifies buf
    ensures buf[..] == Patch(was, start, got + part)
  {
    CopyIn(buf, at, part);
    PatchPatch(was, start, got, part);
  }

  lemma OutsidePatch(was: seq<byte>, at: nat, got: seq<byte>, now: seq<byte>, len: nat)
    requires at + len <= |was| && |got| <= len && now == Patch(was, at, got)
    ensures forall i :: 0 <= i < |was| && !(at <= i < at + len) ==> now[i] == was[i]
  {
  }

  lemma PatchPatch(b: seq<byte>, at: nat, x: seq<byte>, y: seq<byte>)
    requires at + |x| + |y| <= |b|
    ensures Patch(Patch(b, at, x), at + |x|, y) == Patch(b, at, x + y)
  {
    var p, q := Patch(Patch(b, at, x), at + |x|, y), Patch(b, at, x + y);
    assert p == q;
  }

  lemma ThenMore(got: seq<byte>, part: seq<byte>, rest: Option<seq<byte>>)
    ensures Then(got, Then(part, rest)) == Then(got + part, rest)
  {
    if rest.Some? { assert got + (part + rest.value) == got + part + rest.value; }
  }

  lemma ThenFirst(rest: Option<seq<byte>>)
    ensures Then([], rest) == rest
  {
    if rest.Some? { assert [] + rest.value == rest.value; }
  }

  lemma ReadEnds(disk: Disk, lba: nat, count: nat)
    ensures lba + count <= LBA32 ==>
              ReadBatches(disk, lba, count, 0) == if count == 0 || lba + count <= |disk| then Some(JoinRest(disk, lba, count, 0)) else None
  {
    if lba + count <= LBA32 { ReadBatchesIs(disk, lba, count, 0); }
  }

  lemma WriteEnds(disk: Disk, lba: nat, count: nat, data: seq<byte>)
    requires count * SECTOR <= |data|
    ensures lba + count <= LBA32 ==>
              WriteBatches(disk, lba, count, data, 0)
              == Written(Stored(disk, lba, count, data, Reached(disk, lba, count)), count == 0 || lba + count <= |disk|)
  {
    if lba + count <= LBA32 { WriteBatchesIs(disk, lba, count, data, 0); }
  }

  lemma {:induction false} StoreWhole(disk: Disk, lba: nat, n: nat, data: seq<byte>)
    requires Whole(disk) && lba + n <= |disk| && n * SECTOR <= |data|
    ensures Whole(Store(disk, lba, n, SECTOR, data))
  {
    if n > 0 { StoreWhole(disk, lba, n - 1, data); }
  }
}
