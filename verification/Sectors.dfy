/** A disk as a sequence of sectors, and runs of consecutive sectors as byte strings. */
module Sectors {
  import opened Bytes

  type Sector = seq<byte>
  type Disk = seq<Sector>

  /** The bytes of `n` consecutive sectors. */
  function Join(disk: Disk, lba: nat, n: nat): (r: seq<byte>)
    requires lba + n <= |disk|
  {
    if n == 0 then [] else Join(disk, lba, n - 1) + disk[lba + n - 1]
  }

  lemma {:induction false} JoinLength(disk: Disk, lba: nat, n: nat, ss: nat)
    requires lba + n <= |disk| && forall i :: 0 <= i < |disk| ==> |disk[i]| == ss
    ensures |Join(disk, lba, n)| == n * ss
  {
    if n > 0 { JoinLength(disk, lba, n - 1, ss); assert n * ss == (n - 1) * ss + ss; }
  }

  lemma {:induction false} JoinSame(disk: Disk, disk1: Disk, lba: nat, n: nat)
    requires |disk1| == |disk| && lba + n <= |disk|
    requires forall i :: lba <= i < lba + n ==> disk1[i] == disk[i]
    ensures Join(disk1, lba, n) == Join(disk, lba, n)
  {
    if n > 0 { JoinSame(disk, disk1, lba, n - 1); }
  }

  /** Sector `i` behind `lba` holds the `i`-th slice of `bytes`. */
  ghost predicate HoldsSlice(disk: Disk, lba: nat, i: nat, ss: nat, bytes: seq<byte>) {
    lba + i < |disk| && i * ss + ss <= |bytes| && disk[lba + i] == bytes[i * ss..i * ss + ss]
  }

  /** Sectors that hold consecutive slices of `bytes` join to `bytes`. */
  lemma {:induction false} JoinSlices(disk: Disk, lba: nat, n: nat, ss: nat, bytes: seq<byte>)
    requires lba + n <= |disk| && n * ss <= |bytes|
    requires forall i: nat :: i < n ==> HoldsSlice(disk, lba, i, ss, bytes)
    ensures Join(disk, lba, n) == bytes[..n * ss]
  {
    if n > 0 {
      assert (n - 1) * ss + ss == n * ss;
      JoinSlices(disk, lba, n - 1, ss, bytes);
      assert HoldsSlice(disk, lba, n - 1, ss, bytes);
      assert bytes[..(n - 1) * ss] + bytes[(n - 1) * ss..n * ss] == bytes[..n * ss];
    }
  }

  /** The disk after `bytes`, a whole number of `ss`-byte sectors, are stored from `lba` on. */
  function Store(disk: Disk, lba: nat, n: nat, ss: nat, bytes: seq<byte>): (r: Disk)
    requires lba + n <= |disk| && n * ss <= |bytes|
    ensures |r| == |disk|
    ensures forall i :: 0 <= i < |disk| && !(lba <= i < lba + n) ==> r[i] == disk[i]
  {
    if n == 0 then disk else
    Fits(n, ss, |bytes|);
    Store(disk, lba, n - 1, ss, bytes)[lba + n - 1 := bytes[(n - 1) * ss..(n - 1) * ss + ss]]
  }

  lemma Fits(n: nat, ss: nat, len: nat)
    requires n > 0 && n * ss <= len
    ensures (n - 1) * ss + ss == n * ss <= len
  {
  }

  lemma {:induction false} StoredSlice(disk: Disk, lba: nat, n: nat, ss: nat, bytes: seq<byte>, i: nat)
    requires lba + n <= |disk| && n * ss <= |bytes| && i < n
    ensures HoldsSlice(Store(disk, lba, n, ss, bytes), lba, i, ss, bytes)
  {
    Fits(n, ss, |bytes|);
    if i < n - 1 { StoredSlice(disk, lba, n - 1, ss, bytes, i); }
  }

  /** What is stored is what a read of the same sectors returns. */
  lemma StoreThenJoin(disk: Disk, lba: nat, n: nat, ss: nat, bytes: seq<byte>)
    requires lba + n <= |disk| && n * ss <= |bytes|
    ensures Join(Store(disk, lba, n, ss, bytes), lba, n) == bytes[..n * ss]
  {
    var r := Store(disk, lba, n, ss, bytes);
    forall i: nat | i < n ensures HoldsSlice(r, lba, i, ss, bytes) { StoredSlice(disk, lba, n, ss, bytes, i); }
    JoinSlices(r, lba, n, ss, bytes);
  }
}
