/** Clean means saved: over every run of file operations, syncs and recoveries, an unmarked
    tree is the tree on disk. */
module CleanSaved {
  import opened Bytes
  import opened Sectors
  import opened RamFsModel
  import opened RamFsNames
  import opened DiskImage
  import opened DiskSync
  import RamFs
  import Utf8

  // ---- The size of an image does not depend on the visiting order ------------------------------------

  function Without(order: seq<Path>, j: nat): seq<Path>
    requires j < |order|
  {
    order[..j] + order[j + 1..]
  }

  lemma {:induction false} SizeWithout(t: Tree, order: seq<Path>, j: nat)
    requires (forall k :: k in order ==> k in t) && j < |order|
    ensures forall k :: k in Without(order, j) ==> k in t
    ensures RequiredSize(t, order) == EntryNeed(order[j], t[order[j]]) + RequiredSize(t, Without(order, j))
  {
    var w := Without(order, j);
    if j == 0 {
      assert w == order[1..];
    } else {
      SizeWithout(t, order[1..], j - 1);
      assert w[0] == order[0] && w[1..] == Without(order[1..], j - 1);
    }
  }

  ghost predicate SameKeys(a: seq<Path>, b: seq<Path>) {
    && (forall k :: k in a <==> k in b)
    && (forall i, j :: 0 <= i < j < |a| ==> a[i] != a[j]) && (forall i, j :: 0 <= i < j < |b| ==> b[i] != b[j])
  }

  lemma DropSameKey(a: seq<Path>, b: seq<Path>, j: nat)
    requires SameKeys(a, b) && a != [] && j < |b| && b[j] == a[0]
    ensures SameKeys(a[1..], Without(b, j))
  {
    var a1, b1 := a[1..], Without(b, j);
    assert forall i :: 0 <= i < |b1| ==> b1[i] == if i < j then b[i] else b[i + 1];
    forall k ensures k in a1 <==> k in b1 {
      if k in a1 {
        assert k in a && k in b;
        var x :| 0 <= x < |b| && b[x] == k;
        assert k == b1[if x < j then x else x - 1];
      }
      if k in b1 {
        var x :| 0 <= x < |b1| && b1[x] == k;
        assert k in b && k != a[0];
        var y :| 0 <= y < |a| && a[y] == k;
        assert k == a1[y - 1];
      }
    }
  }

  lemma BothNonEmpty(a: seq<Path>, b: seq<Path>)
    requires SameKeys(b, a) && a != []
    ensures b != []
  {
    assert a[0] in b;
  }

  lemma {:induction false} SizeAnyOrder(t: Tree, a: seq<Path>, b: seq<Path>)
    requires SameKeys(a, b) && (forall k :: k in a ==> k in t) && (forall k :: k in b ==> k in t)
    ensures RequiredSize(t, a) == RequiredSize(t, b)
    decreases |a|
  {
    if a == [] {
      if b != [] { BothNonEmpty(b, a); }
    } else {
      assert a[0] in b;
      var j :| 0 <= j < |b| && b[j] == a[0];
      DropSameKey(a, b, j);
      SizeWithout(t, b, j);
      SizeAnyOrder(t, a[1..], Without(b, j));
    }
  }

  /** The tree is within the limits of the format, however it is visited. */
  ghost predicate Fits(t: Tree) { exists order :: Enumerates(order, t) && WithinLimits(t, order) }

  lemma FitsAnyOrder(t: Tree, order: seq<Path>)
    requires Enumerates(order, t)
    ensures Fits(t) <==> WithinLimits(t, order)
  {
    if other :| Enumerates(other, t) && WithinLimits(t, other) { SizeAnyOrder(t, order, other); }
  }

  // ---- The invariant ------------------------------------------------------------------------------------

  /** Boot would find `t` on the disk, or `t` exceeds the limits of the format. */
  ghost predicate Mirrors(disk: Disk, t: Tree) { Fits(t) ==> Load(disk) == Some(t) }

  ghost predicate Faithful(m: Machine) {
    Strings(m.fs.nodes) && (!m.fs.dirty ==> Mirrors(m.disk, m.fs.nodes))
  }

  datatype Event =
    | FileOp(op: Op, now: u64)
    | SyncCall(order: seq<Path>, buffer: bool)
    | RecoverCall

  ghost predicate Next(m: Machine, e: Event, m': Machine) {
    match e
    case FileOp(op, now) => StringArgs(op) && m' == Machine(RamFs.Run(m.fs, op, now).state, m.disk)
    case SyncCall(order, buffer) =>
      Syncable(m.fs.nodes, order) && (SyncResult(m, m', order, buffer, true) || SyncResult(m, m', order, buffer, false))
    case RecoverCall =>
      m' == if Load(m.disk).Some? then m.(fs := m.fs.(ready := true, nodes := Load(m.disk).value)) else m
  }

  /** What the parser returns has string paths. */
  lemma {:induction false} ReadStrings(buf: seq<byte>, cursor: nat, count: nat, t: Tree)
    requires Strings(t)
    ensures Strings(ReadEntries(Parser(buf), cursor, count, t))
    decreases count
  {
    if count > 0 {
      match Parser(buf)(cursor)
      case Stop =>
      case Entry(path, node, next) => ReadStrings(buf, next, count - 1, t[path := node]);
    }
  }

  lemma LoadStrings(disk: Disk)
    ensures Load(disk).Some? ==> Strings(Load(disk).value)
  {
    if Load(disk).Some? {
      var buf := ReadImage(disk).value;
      ReadStrings(buf, HEADER, FromLe32(buf[26..30]), map[]);
    }
  }

  /** A successful sync leaves a faithful machine, whatever was on the disk before. */
  lemma SyncFaithful(m: Machine, m': Machine, order: seq<Path>, buffer: bool, ok: bool)
    requires Strings(m.fs.nodes) && Syncable(m.fs.nodes, order) && SyncResult(m, m', order, buffer, ok)
    requires ok && m.fs.dirty
    ensures Faithful(m') && !m'.fs.dirty && m'.fs.nodes == m.fs.nodes
  {
    SaveThenLoad(m.disk, m.fs.nodes, order);
    RoundTripExact(m.disk, m.fs.nodes, order);
    FitsAnyOrder(m.fs.nodes, order);
  }

  /** A sync of a marked tree succeeds exactly when there is a tree, a buffer and room on the disk; then boot finds the
      tree, exactly if it is within the limits, and the disk is kept around the image. A failed one leaves it marked. */
  lemma SyncExact(m: Machine, m': Machine, order: seq<Path>, buffer: bool, ok: bool)
    requires Strings(m.fs.nodes) && Syncable(m.fs.nodes, order) && SyncResult(m, m', order, buffer, ok) && m.fs.dirty
    ensures var n := SectorsNeeded(RequiredSize(m.fs.nodes, order));
            && (ok <==> m.fs.ready && m.fs.nodes != map[] && buffer && LBA_BASE + n <= |m.disk|)
            && m'.fs.nodes == m.fs.nodes && m'.fs.dirty == !ok && |m'.disk| == |m.disk|
            && (ok ==> (Load(m'.disk) == Some(m.fs.nodes) <==> WithinLimits(m.fs.nodes, order)))
            && (ok ==> forall k :: 0 <= k < |m.disk| && !(LBA_BASE <= k < LBA_BASE + n) ==> m'.disk[k] == m.disk[k])
  {
    if ok {
      RoundTripExact(m.disk, m.fs.nodes, order);
    }
  }

  lemma NextFaithful(m: Machine, e: Event, m': Machine)
    requires Faithful(m) && Next(m, e, m')
    ensures Faithful(m')
  {
    match e
    case FileOp(op, now) =>
      RamFs.ChangesAreMarked(m.fs, op, now);
      ApplyStrings(m.fs.nodes, op);
    case SyncCall(order, buffer) =>
      if m.fs.dirty && SyncResult(m, m', order, buffer, true) { SyncFaithful(m, m', order, buffer, true); }
    case RecoverCall => LoadStrings(m.disk);
  }

  /** Event number `n` leads from one state to the next. */
  ghost predicate Moves(trace: seq<Machine>, events: seq<Event>, n: nat) {
    n < |events| && n + 1 < |trace| && Next(trace[n], events[n], trace[n + 1])
  }

  ghost predicate IsRun(trace: seq<Machine>, events: seq<Event>) {
    |trace| == |events| + 1 && forall n: nat :: n < |events| ==> Moves(trace, events, n)
  }

  lemma {:induction false} FaithfulOverRuns(trace: seq<Machine>, events: seq<Event>, n: nat)
    requires IsRun(trace, events) && n < |trace| && Faithful(trace[0])
    ensures Faithful(trace[n])
  {
    if n > 0 {
      FaithfulOverRuns(trace, events, n - 1);
      assert Moves(trace, events, n - 1);
      NextFaithful(trace[n - 1], events[n - 1], trace[n - 1 + 1]);
    }
  }

  /** Clean means saved. Once a sync (or a recovery of an unmarked tree) has succeeded, in every later state of
      every run in which the tree is unmarked, boot would find exactly the live tree, if it is within the limits. */
  lemma CleanMeansSaved(m: Machine, first: Event, trace: seq<Machine>, events: seq<Event>, n: nat)
    requires Strings(m.fs.nodes) && IsRun(trace, events) && n < |trace| && Next(m, first, trace[0])
    requires || (first.SyncCall? && m.fs.dirty && !trace[0].fs.dirty)
             || (first.RecoverCall? && Load(m.disk).Some?)
    ensures !trace[n].fs.dirty && Fits(trace[n].fs.nodes) ==> Load(trace[n].disk) == Some(trace[n].fs.nodes)
  {
    if first.SyncCall? {
      SyncFaithful(m, trace[0], first.order, first.buffer, true);
    } else {
      LoadStrings(m.disk);
    }
    FaithfulOverRuns(trace, events, n);
  }

  // ---- The deferred flush ----------------------------------------------------------------------------------

  const DEFERRED_TICKS: nat := 1000

  /** A real tick, at least 1000 ticks back; the difference wraps. */
  predicate Due(stamp: u64, now: u64) {
    stamp != NEVER && (now - stamp) % 0x1_0000_0000_0000_0000 >= DEFERRED_TICKS
  }

  /** `deferred_tick` calls the sync. */
  predicate Flushes(s: RamFs.State, now: u64) {
    s.dirty && Due(s.lastDirty, now)
  }

  /** A successful operation other than a rename: it stamps the tick. */
  ghost predicate Stamps(m: Machine, e: Event) {
    e.FileOp? && !e.op.RenameOp? && RamFs.Run(m.fs, e.op, e.now).ok
  }

  /** A sync after which the tree is unmarked. */
  ghost predicate Clears(e: Event, m': Machine) { e.SyncCall? && !m'.fs.dirty }

  /** Event number `i` stamped the tick, and none up to `n` has stamped it anew or saved the tree. */
  ghost predicate Pending(trace: seq<Machine>, events: seq<Event>, n: nat, i: nat) {
    && i < n <= |events| && |trace| == |events| + 1 && Stamps(trace[i], events[i])
    && forall j {:trigger Overrides(trace, events, j)} :: i < j < n ==> !Overrides(trace, events, j)
  }

  ghost predicate Overrides(trace: seq<Machine>, events: seq<Event>, j: nat) {
    j < |events| && j + 1 < |trace| && (Stamps(trace[j], events[j]) || Clears(events[j], trace[j + 1]))
  }

  /** The tree's stamp is that of the pending event. */
  ghost predicate StampedBy(trace: seq<Machine>, events: seq<Event>, n: nat, i: nat) {
    Pending(trace, events, n, i) && n < |trace| && trace[n].fs.dirty && trace[n].fs.lastDirty == events[i].now
  }

  ghost predicate Unstamped(trace: seq<Machine>, events: seq<Event>, n: nat) {
    n < |trace| && trace[n].fs.lastDirty == NEVER && forall i: nat :: !Pending(trace, events, n, i)
  }

  lemma StepStamp(m: Machine, e: Event, m': Machine)
    requires Next(m, e, m')
    ensures if Stamps(m, e) then m'.fs.dirty && m'.fs.lastDirty == e.now
            else if Clears(e, m') then m.fs.dirty ==> m'.fs.lastDirty == NEVER
            else m'.fs.lastDirty == m.fs.lastDirty && (m.fs.dirty ==> m'.fs.dirty)
  {
  }

  lemma PendingOn(trace: seq<Machine>, events: seq<Event>, n: nat, i: nat)
    requires |trace| == |events| + 1 && n < |events|
    ensures Pending(trace, events, n + 1, i)
       <==> (i == n && Stamps(trace[n], events[n])) || (Pending(trace, events, n, i) && !Overrides(trace, events, n))
  {
  }

  lemma StampNew(trace: seq<Machine>, events: seq<Event>, n: nat)
    requires IsRun(trace, events) && n < |events| && Stamps(trace[n], events[n])
    ensures StampedBy(trace, events, n + 1, n)
  {
    assert Moves(trace, events, n);
    StepStamp(trace[n], events[n], trace[n + 1]);
    PendingOn(trace, events, n, n);
  }

  lemma StampKept(trace: seq<Machine>, events: seq<Event>, n: nat, i: nat)
    requires IsRun(trace, events) && n < |events| && StampedBy(trace, events, n, i) && !Overrides(trace, events, n)
    ensures StampedBy(trace, events, n + 1, i)
  {
    assert Moves(trace, events, n);
    StepStamp(trace[n], events[n], trace[n + 1]);
    PendingOn(trace, events, n, i);
  }

  lemma StampGone(trace: seq<Machine>, events: seq<Event>, n: nat)
    requires IsRun(trace, events) && n < |events| && !Stamps(trace[n], events[n])
    requires Unstamped(trace, events, n) || (trace[n].fs.dirty && Overrides(trace, events, n))
    ensures Unstamped(trace, events, n + 1)
  {
    assert Moves(trace, events, n);
    StepStamp(trace[n], events[n], trace[n + 1]);
    var n1 := n + 1;
    forall i: nat ensures !Pending(trace, events, n1, i) { PendingOn(trace, events, n, i); }
  }

  ghost predicate Accounts(trace: seq<Machine>, events: seq<Event>, n: nat, i: nat) {
    StampedBy(trace, events, n, i) || Unstamped(trace, events, n)
  }

  lemma StampStep(trace: seq<Machine>, events: seq<Event>, n: nat, i: nat) returns (k: nat)
    requires IsRun(trace, events) && n < |events| && Accounts(trace, events, n, i)
    ensures Accounts(trace, events, n + 1, k)
  {
    k := i;
    if Stamps(trace[n], events[n]) {
      StampNew(trace, events, n);
      k := n;
    } else if StampedBy(trace, events, n, i) && !Overrides(trace, events, n) {
      StampKept(trace, events, n, i);
    } else {
      StampGone(trace, events, n);
    }
  }

  /** Some index accounts for the stamp after `n` events. */
  ghost predicate SomeIndex(p: (nat, nat) -> bool, n: nat) { exists i: nat :: p(n, i) }

  ghost function Accounter(trace: seq<Machine>, events: seq<Event>): (nat, nat) -> bool {
    (m: nat, j: nat) => Accounts(trace, events, m, j)
  }

  lemma StampNext(trace: seq<Machine>, events: seq<Event>, m: nat, j: nat)
    requires IsRun(trace, events) && m < |events| && Accounter(trace, events)(m, j)
    ensures SomeIndex(Accounter(trace, events), m + 1)
  {
    var k := StampStep(trace, events, m, j);
    assert Accounter(trace, events)(m + 1, k);
  }

  lemma StampStart(trace: seq<Machine>, events: seq<Event>)
    requires |trace| > 0 && trace[0].fs.lastDirty == NEVER
    ensures SomeIndex(Accounter(trace, events), 0)
  {
    assert Accounter(trace, events)(0, 0);
  }

  /** After every run that starts unstamped, the stamp is that of the one pending event, or there is none. */
  lemma {:induction false} StampOverRuns(trace: seq<Machine>, events: seq<Event>, n: nat)
    requires IsRun(trace, events) && n < |trace| && trace[0].fs.lastDirty == NEVER
    ensures SomeIndex(Accounter(trace, events), n)
  {
    if n == 0 {
      StampStart(trace, events);
    } else {
      StampOverRuns(trace, events, n - 1);
      var j: nat :| Accounter(trace, events)(n - 1, j);
      StampNext(trace, events, n - 1, j);
    }
  }

  lemma OnePending(trace: seq<Machine>, events: seq<Event>, n: nat, i: nat, k: nat)
    requires Pending(trace, events, n, i) && Pending(trace, events, n, k)
    ensures i == k
  {
    if i < k { assert Overrides(trace, events, k); }
    if k < i { assert Overrides(trace, events, i); }
  }

  /** Exactly when the deferred tick saves: in every run of operations, syncs and recoveries that starts unstamped,
      it syncs if and only if the latest successful operation other than a rename is not saved yet, carries a real
      tick, and lies at least 1000 ticks back. */
  lemma DeferredFlushExact(trace: seq<Machine>, events: seq<Event>, n: nat, later: u64)
    requires IsRun(trace, events) && n < |trace| && trace[0].fs.lastDirty == NEVER
    ensures Flushes(trace[n].fs, later) <==>
            exists i: nat :: Pending(trace, events, n, i) && Due(events[i].now, later)
  {
    StampOverRuns(trace, events, n);
    var i: nat :| Accounter(trace, events)(n, i);
    if StampedBy(trace, events, n, i) { StampDecides(trace, events, n, i, later); }
  }

  lemma StampDecides(trace: seq<Machine>, events: seq<Event>, n: nat, i: nat, later: u64)
    requires StampedBy(trace, events, n, i)
    ensures Flushes(trace[n].fs, later) <==> exists k: nat :: Pending(trace, events, n, k) && Due(events[k].now, later)
  {
    forall k: nat | Pending(trace, events, n, k) ensures k == i { OnePending(trace, events, n, i, k); }
  }

  /** A rename marks the tree without stamping the tick: a rename with no other change around it is never flushed by
      the deferred tick, however long it waits, although the tree stays marked. */
  lemma {:induction false} RenamesAreNotFlushed(trace: seq<Machine>, events: seq<Event>, k: nat, n: nat, later: u64)
    requires IsRun(trace, events) && k < n < |trace| && trace[0].fs.lastDirty == NEVER
    requires events[k].FileOp? && trace[k + 1].fs.dirty
    requires forall j: nat :: j < n ==> !Stamps(trace[j], events[j]) && !Clears(events[j], trace[j + 1])
    ensures trace[n].fs.dirty && !Flushes(trace[n].fs, later)
  {
    DeferredFlushExact(trace, events, n, later);
    if k + 1 < n {
      RenamesAreNotFlushed(trace, events, k, n - 1, later);
      assert Moves(trace, events, n - 1);
      StepStamp(trace[n - 1], events[n - 1], trace[n - 1 + 1]);
    }
  }
}
