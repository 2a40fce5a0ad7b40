/** The virtual file system: mount points, path resolution and file descriptors over RamFS instances. */
module VfsModel {
  import opened Bytes
  import opened Paths
  import M = RamFsModel
  import R = RamFs

  type Path = seq<byte>

  const MAX_MOUNTS: nat := 16
  const MAX_FDS: nat := 64
  const RESERVED: nat := 3

  // ---- Mounts ---------------------------------------------------------------------------------------

  /** A mount point and the file system behind it. */
  datatype Mount = Mount(path: Path, fs: nat)

  ghost predicate Longest1st(ms: seq<Mount>) { forall i, j :: 0 <= i < j < |ms| ==> |ms[i].path| >= |ms[j].path| }

  ghost predicate Distinct(ms: seq<Mount>) { forall i, j :: 0 <= i < j < |ms| ==> ms[i].path != ms[j].path }

  /** Behind every mount that is at least as long. */
  function Place(ms: seq<Mount>, len: nat): (r: nat)
    ensures r <= |ms| && (forall i :: 0 <= i < r ==> |ms[i].path| >= len) && (r < |ms| ==> |ms[r].path| < len)
  {
    if ms == [] || |ms[0].path| < len then 0 else 1 + Place(ms[1..], len)
  }

  predicate InUse(ms: seq<Mount>, path: Path) { exists i :: 0 <= i < |ms| && ms[i].path == path }

  datatype Mounted = Mounted(mounts: seq<Mount>, ok: bool)

  /** `mount`: refused for a path in use or when the table is full; else the list is kept longest first. */
  function AddMount(ms: seq<Mount>, path: Path, fs: nat): Mounted {
    if InUse(ms, path) || |ms| >= MAX_MOUNTS then Mounted(ms, false) else
    var k := Place(ms, |path|);
    Mounted(ms[..k] + [Mount(path, fs)] + ms[k..], true)
  }

  ghost function Spliced(ms: seq<Mount>, k: nat, m: Mount): (r: seq<Mount>)
    requires k <= |ms|
    ensures |r| == |ms| + 1 && forall i :: 0 <= i < |r| ==> r[i] == if i < k then ms[i] else if i == k then m else ms[i - 1]
  {
    ms[..k] + [m] + ms[k..]
  }

  lemma SplicedSorted(ms: seq<Mount>, m: Mount)
    requires Longest1st(ms)
    ensures Longest1st(Spliced(ms, Place(ms, |m.path|), m))
  {
    var k := Place(ms, |m.path|);
    var r := Spliced(ms, k, m);
    forall i, j | 0 <= i < j < |r| ensures |r[i].path| >= |r[j].path| {
      if i == k && k < j - 1 { assert |ms[k].path| >= |ms[j - 1].path|; }
    }
  }

  lemma SplicedDistinct(ms: seq<Mount>, k: nat, m: Mount)
    requires Distinct(ms) && k <= |ms| && forall i :: 0 <= i < |ms| ==> ms[i].path != m.path
    ensures Distinct(Spliced(ms, k, m))
  {
  }

  /** Mounting keeps the table longest first, without duplicates and within its size, and adds just the one entry. */
  lemma AddMountKeeps(ms: seq<Mount>, path: Path, fs: nat)
    requires Longest1st(ms) && Distinct(ms) && |ms| <= MAX_MOUNTS
    ensures var r := AddMount(ms, path, fs);
            && Longest1st(r.mounts) && Distinct(r.mounts) && |r.mounts| <= MAX_MOUNTS
            && r.mounts == if r.ok then Spliced(ms, Place(ms, |path|), Mount(path, fs)) else ms
  {
    if AddMount(ms, path, fs).ok {
      SplicedSorted(ms, Mount(path, fs));
      SplicedDistinct(ms, Place(ms, |path|), Mount(path, fs));
    }
  }

  lemma AddMountAdds(ms: seq<Mount>, path: Path, fs: nat)
    ensures var r := AddMount(ms, path, fs);
            multiset(r.mounts) == if r.ok then multiset(ms) + multiset{Mount(path, fs)} else multiset(ms)
  {
    var k := Place(ms, |path|);
    assert ms == ms[..k] + ms[k..];
  }

  /** The mount handles the path: the path itself, the root, or an ancestor on a component boundary. */
  predicate Matches(m: Mount, path: Path) {
    path == m.path || m.path == [SLASH] || (m.path <= path && path[|m.path|] == SLASH)
  }

  /** The path within the mount. */
  function Relative(m: Mount, path: Path): Path
    requires Matches(m, path)
  {
    if path == m.path then [SLASH] else if m.path == [SLASH] then path else path[|m.path|..]
  }

  datatype Target = Target(fs: nat, rel: Path)

  function FirstMatch(ms: seq<Mount>, path: Path): (r: nat)
    ensures r <= |ms| && (r < |ms| ==> Matches(ms[r], path)) && forall i :: 0 <= i < r ==> !Matches(ms[i], path)
  {
    if ms == [] || Matches(ms[0], path) then 0 else 1 + FirstMatch(ms[1..], path)
  }

  /** `resolve`: the first mount that matches. */
  function Resolve(ms: seq<Mount>, path: Path): Option<Target> {
    var k := FirstMatch(ms, path);
    if k == |ms| then None else Some(Target(ms[k].fs, Relative(ms[k], path)))
  }

  /** A mount point covers a path: it is the root, the path itself, or the path goes on behind it with a slash. */
  ghost predicate Covers(point: Path, path: Path) { point == [SLASH] || point == path || point + [SLASH] <= path }

  /** What is left of a path below a mount point: all of it below the root, `/` at the point itself, and else what
      follows the point. */
  ghost predicate Leaves(point: Path, path: Path, rel: Path) {
    if path == point then rel == [SLASH]
    else if point == [SLASH] then rel == path
    else path == point + rel && [SLASH] <= rel
  }

  lemma MatchesIs(m: Mount, path: Path)
    ensures Matches(m, path) <==> Covers(m.path, path)
    ensures Matches(m, path) ==> Leaves(m.path, path, Relative(m, path))
  {
    if m.path <= path && |m.path| < |path| {
      assert m.path + path[|m.path|..] == path;
      if path[|m.path|] == SLASH { assert path == m.path + [SLASH] + path[|m.path| + 1..]; }
    }
    if m.path + [SLASH] <= path { assert path[|m.path|] == (m.path + [SLASH])[|m.path|]; }
  }

  /** Resolution goes to a longest mount point that covers the path, with what is left of the path below it, and fails
      if and only if none covers it. */
  lemma ResolveLongest(ms: seq<Mount>, path: Path) returns (k: nat)
    requires Longest1st(ms)
    ensures Resolve(ms, path).None? <==> forall i :: 0 <= i < |ms| ==> !Covers(ms[i].path, path)
    ensures Resolve(ms, path).Some? ==>
              var t := Resolve(ms, path).value;
              && k < |ms| && t.fs == ms[k].fs && Covers(ms[k].path, path) && Leaves(ms[k].path, path, t.rel)
              && forall i :: 0 <= i < |ms| && Covers(ms[i].path, path) ==> |ms[i].path| <= |ms[k].path|
  {
    k := FirstMatch(ms, path);
    forall i | 0 <= i < |ms| ensures Matches(ms[i], path) <==> Covers(ms[i].path, path) { MatchesIs(ms[i], path); }
    if k < |ms| { MatchesIs(ms[k], path); }
  }

  // ---- Files ------------------------------------------------------------------------------------------

  /** An open file: a cursor on a path. */
  datatype Fd = Fd(path: Path, offset: nat, active: bool, readable: bool, writable: bool, dirty: bool)

  datatype Vfs = Vfs(mounts: seq<Mount>, trees: seq<R.State>, fds: seq<Fd>)

  /** Every mount leads to a file system, and the first three descriptors are there. */
  ghost predicate Wf(s: Vfs) {
    (forall i :: 0 <= i < |s.mounts| ==> s.mounts[i].fs < |s.trees|) && RESERVED <= |s.fds| <= MAX_FDS
  }

  function Find(s: Vfs, path: Path): Option<Target> {
    match Resolve(s.mounts, path)
    case Some(t) => if t.fs < |s.trees| then Some(t) else None
    case None => None
  }

  /** The operations of a mounted file system that descriptors use. */
  datatype FileSystem = FileSystem(exists_: (R.State, Path) -> bool, bytes: (R.State, Path) -> Option<seq<byte>>,
                                   touch: (R.State, Path, u64) -> R.Step,
                                   writeAt: (R.State, Path, nat, seq<byte>, u64) -> R.Step)

  /** The bytes of the file a path leads to. */
  function Contents(f: FileSystem, s: Vfs, path: Path): Option<seq<byte>> {
    match Find(s, path) case None => None case Some(t) => f.bytes(s.trees[t.fs], t.rel)
  }

  function Exists(f: FileSystem, s: Vfs, path: Path): bool {
    match Find(s, path) case None => false case Some(t) => f.exists_(s.trees[t.fs], t.rel)
  }

  datatype Changed = Changed(vfs: Vfs, ok: bool)

  function Touch(f: FileSystem, s: Vfs, path: Path, now: u64): Changed {
    match Find(s, path)
    case None => Changed(s, false)
    case Some(t) => var r := f.touch(s.trees[t.fs], t.rel, now); Changed(s.(trees := s.trees[t.fs := r.state]), r.ok)
  }

  function WriteAt(f: FileSystem, s: Vfs, path: Path, offset: nat, data: seq<byte>, now: u64): Changed {
    match Find(s, path)
    case None => Changed(s, false)
    case Some(t) =>
      var r := f.writeAt(s.trees[t.fs], t.rel, offset, data, now);
      Changed(s.(trees := s.trees[t.fs := r.state]), r.ok)
  }

  // ---- What descriptors need of a file system, and that RamFS provides it ---------------------------------

  /** A write overlays the file, zero-filling a hole, and leaves files of other names alone; it does not fail on a
      file, and a failed write changes no bytes. */
  ghost predicate WriteOverlays(f: FileSystem, t: R.State, rel: Path, offset: nat, data: seq<byte>, now: u64, other: Path) {
    var r := f.writeAt(t, rel, offset, data, now);
    var was := match f.bytes(t, rel) case None => [] case Some(c) => c;
    && (f.bytes(t, rel).Some? ==> r.ok)
    && (r.ok ==> f.bytes(r.state, rel) == Some(Overlay(was, offset, data)))
    && (!r.ok || M.Normalize(other) != M.Normalize(rel) ==> f.bytes(r.state, other) == f.bytes(t, other))
  }

  /** Touching a name that does not exist makes an empty file; all other bytes stay, and an existing file does too. */
  ghost predicate TouchCreates(f: FileSystem, t: R.State, rel: Path, now: u64, other: Path) {
    var r := f.touch(t, rel, now);
    && (f.bytes(t, rel).Some? ==> f.exists_(t, rel))
    && (r.ok && !f.exists_(t, rel) ==> f.bytes(r.state, rel) == Some([]))
    && (!r.ok || f.exists_(t, rel) || M.Normalize(other) != M.Normalize(rel) ==> f.bytes(r.state, other) == f.bytes(t, other))
  }

  ghost predicate Behaves(f: FileSystem) {
    && (forall t, rel, offset, data, now, other :: WriteOverlays(f, t, rel, offset, data, now, other))
    && (forall t, rel, now, other :: TouchCreates(f, t, rel, now, other))
    && (forall t, a, b :: SameName(f, t, a, b))
  }

  /** Spellings of one name lead to the same bytes. */
  ghost predicate SameName(f: FileSystem, t: R.State, a: Path, b: Path) {
    M.Normalize(a) == M.Normalize(b) ==> f.bytes(t, a) == f.bytes(t, b)
  }

  /** The bytes of a RamFS file. */
  function FileBytes(t: R.State, rel: Path): Option<seq<byte>> {
    var p := M.Normalize(rel);
    if t.ready && p in t.nodes && t.nodes[p].File? then Some(t.nodes[p].data) else None
  }

  function RamFileSystem(): FileSystem {
    FileSystem((t: R.State, rel: Path) => t.ready && M.Normalize(rel) in t.nodes,
               (t: R.State, rel: Path) => FileBytes(t, rel),
               (t: R.State, rel: Path, now: u64) => R.Run(t, M.TouchOp(rel), now),
               (t: R.State, rel: Path, offset: nat, data: seq<byte>, now: u64) => R.Run(t, M.WriteAtOp(rel, offset, data), now))
  }

  lemma EnsureParentAt(t: M.Tree, p: Path, k: Path)
    ensures var r := M.EnsureParent(t, p); (k in t ==> k in r && r[k] == t[k]) && (k in r && k !in t ==> r[k] == M.Dir)
  {
    M.MkdirAllAdds(t, M.Parent(p));
  }

  lemma WriteAtTree(t: M.Tree, path: Path, offset: nat, data: seq<byte>, k: Path)
    requires M.WriteAt(t, path, offset, data).ok
    ensures var p := M.Normalize(path); var r := M.WriteAt(t, path, offset, data).tree;
            && p in r && r[p] == M.File(Overlay(if p in t && t[p].File? then t[p].data else [], offset, data))
            && (k != p && k in t ==> k in r && r[k] == t[k]) && (k != p && k in r && k !in t ==> r[k] == M.Dir)
  {
    EnsureParentAt(t, M.Normalize(path), k);
  }

  lemma WriteAtBytes(t: R.State, rel: Path, offset: nat, data: seq<byte>, now: u64, other: Path)
    ensures var r := R.Run(t, M.WriteAtOp(rel, offset, data), now);
            var was := match FileBytes(t, rel) case None => [] case Some(c) => c;
            && (FileBytes(t, rel).Some? ==> r.ok)
            && (r.ok ==> FileBytes(r.state, rel) == Some(Overlay(was, offset, data)))
            && (!r.ok || M.Normalize(other) != M.Normalize(rel) ==> FileBytes(r.state, other) == FileBytes(t, other))
  {
    if t.ready && M.WriteAt(t.nodes, rel, offset, data).ok {
      WriteAtTree(t.nodes, rel, offset, data, M.Normalize(other));
    }
  }

  lemma RamFsOverlays(t: R.State, rel: Path, offset: nat, data: seq<byte>, now: u64, other: Path)
    ensures WriteOverlays(RamFileSystem(), t, rel, offset, data, now, other)
  {
    WriteAtBytes(t, rel, offset, data, now, other);
  }

  lemma TouchBytes(t: R.State, rel: Path, now: u64, other: Path)
    ensures var r := R.Run(t, M.TouchOp(rel), now); var there := t.ready && M.Normalize(rel) in t.nodes;
            && (r.ok && !there ==> FileBytes(r.state, rel) == Some([]))
            && (!r.ok || there || M.Normalize(other) != M.Normalize(rel) ==> FileBytes(r.state, other) == FileBytes(t, other))
  {
    if t.ready { EnsureParentAt(t.nodes, M.Normalize(rel), M.Normalize(other)); }
  }

  lemma RamFsTouches(t: R.State, rel: Path, now: u64, other: Path)
    ensures TouchCreates(RamFileSystem(), t, rel, now, other)
  {
    TouchBytes(t, rel, now, other);
  }

  /** RamFS gives descriptors what they need. */
  lemma RamFsBehaves()
    ensures Behaves(RamFileSystem())
  {
    forall t, rel, offset, data, now, other ensures WriteOverlays(RamFileSystem(), t, rel, offset, data, now, other) {
      RamFsOverlays(t, rel, offset, data, now, other);
    }
    forall t, rel, now, other ensures TouchCreates(RamFileSystem(), t, rel, now, other) {
      RamFsTouches(t, rel, now, other);
    }
  }

  // ---- Descriptors -----------------------------------------------------------------------------------------

  /** The first free descriptor from `i` on, or the length of the table. */
  function FirstFree(fds: seq<Fd>, i: nat): (r: nat)
    requires i <= |fds|
    ensures i <= r <= |fds| && (r < |fds| ==> !fds[r].active) && forall k :: i <= k < r ==> fds[k].active
    decreases |fds| - i
  {
    if i == |fds| || !fds[i].active then i else FirstFree(fds, i + 1)
  }

  datatype Opened = Opened(vfs: Vfs, fd: Option<nat>)

  /** `sys_open`: a missing file is created in write mode; the cursor starts at 0. */
  function Open(f: FileSystem, s: Vfs, path: Path, flags: nat, now: u64): Opened
    requires RESERVED <= |s.fds|
  {
    var writable := flags % 2 == 1;
    var readable := flags / 2 % 2 == 1 || flags == 0;
    var t := if Exists(f, s, path) then Changed(s, true)
             else if writable then Touch(f, s, path, now) else Changed(s, false);
    if !t.ok then Opened(t.vfs, None) else
    var fd := FirstFree(s.fds, RESERVED);
    var cursor := Fd(path, 0, true, readable, writable, false);
    if fd < |s.fds| then Opened(t.vfs.(fds := s.fds[fd := cursor]), Some(fd))
    else if fd < MAX_FDS then Opened(t.vfs.(fds := s.fds + [cursor]), Some(fd))
    else Opened(t.vfs, None)
  }

  /** The bytes a read of up to `n` bytes at `offset` returns. */
  function Slice(content: seq<byte>, offset: nat, n: nat): (r: seq<byte>) {
    if offset >= |content| then [] else if offset + n <= |content| then content[offset..offset + n] else content[offset..]
  }

  /** `r` is what lies at `offset`: as many bytes as are there, up to `n`, in order. */
  ghost predicate Under(r: seq<byte>, content: seq<byte>, offset: nat, n: nat) {
    && |r| == (if offset >= |content| then 0 else Min(n, |content| - offset))
    && forall i :: 0 <= i < |r| ==> r[i] == content[offset + i]
  }

  lemma SliceIs(content: seq<byte>, offset: nat, n: nat)
    ensures Under(Slice(content, offset, n), content, offset, n)
  {
  }

  datatype Fetched = Fetched(vfs: Vfs, data: Option<seq<byte>>)

  /** `sys_read` */
  function Read(f: FileSystem, s: Vfs, fd: nat, n: nat): Fetched {
    if fd >= |s.fds| || !s.fds[fd].active || !s.fds[fd].readable then Fetched(s, None) else
    match Contents(f, s, s.fds[fd].path)
    case None => Fetched(s, None)
    case Some(content) =>
      var data := Slice(content, s.fds[fd].offset, n);
      Fetched(s.(fds := s.fds[fd := s.fds[fd].(offset := s.fds[fd].offset + |data|)]), Some(data))
  }

  /** `sys_write`: descriptors 1 and 2 go to the console. */
  function Write(f: FileSystem, s: Vfs, fd: nat, data: seq<byte>, now: u64): Changed {
    if fd == 1 || fd == 2 then Changed(s, true)
    else if fd >= |s.fds| || !s.fds[fd].active || !s.fds[fd].writable then Changed(s, false) else
    var c := s.fds[fd];
    var r := WriteAt(f, s, c.path, c.offset, data, now);
    if !r.ok then Changed(r.vfs, false)
    else Changed(r.vfs.(fds := s.fds[fd := c.(offset := c.offset + |data|, dirty := true)]), true)
  }

  datatype Sought = Sought(vfs: Vfs, pos: Option<nat>)

  /** `sys_seek` from the start, the cursor or the end; before the start is an error. */
  function Seek(f: FileSystem, s: Vfs, fd: nat, offset: int, whence: int): Sought {
    if fd < RESERVED || fd >= |s.fds| || !s.fds[fd].active || !(0 <= whence <= 2) then Sought(s, None) else
    var size := match Contents(f, s, s.fds[fd].path) case None => 0 case Some(content) => |content|;
    var pos := offset + (if whence == 0 then 0 else if whence == 1 then s.fds[fd].offset else size);
    if pos < 0 then Sought(s, None) else Sought(s.(fds := s.fds[fd := s.fds[fd].(offset := pos)]), Some(pos))
  }

  function Closed(f: Fd): Fd { f.(active := false, dirty := false, path := [], offset := 0) }

  /** `sys_close` */
  function Close(s: Vfs, fd: nat): Changed {
    if fd < RESERVED || fd >= |s.fds| || !s.fds[fd].active then Changed(s, false)
    else Changed(s.(fds := s.fds[fd := Closed(s.fds[fd])]), true)
  }

  /** `close_all_vfs_fds` */
  function CloseAll(s: Vfs): Vfs {
    s.(fds := seq(|s.fds|, i requires 0 <= i < |s.fds| => if i >= RESERVED && s.fds[i].active then Closed(s.fds[i]) else s.fds[i]))
  }

  // ---- Cursors over shared byte strings ------------------------------------------------------------------------

  /** Opening hands out a descriptor that was not in use, never one of the first three, with its cursor at the start;
      every descriptor in use stays as it was. */
  lemma OpenIsFresh(f: FileSystem, s: Vfs, path: Path, flags: nat, now: u64, k: nat)
    requires Wf(s)
    ensures var r := Open(f, s, path, flags, now);
            && Wf(r.vfs) && r.vfs.mounts == s.mounts
            && (r.fd.Some? ==> var fd := r.fd.value;
                  && RESERVED <= fd < |r.vfs.fds| && (fd < |s.fds| ==> !s.fds[fd].active)
                  && r.vfs.fds[fd].active && r.vfs.fds[fd].path == path && r.vfs.fds[fd].offset == 0)
            && (k < |s.fds| && s.fds[k].active ==> k < |r.vfs.fds| && r.vfs.fds[k] == s.fds[k] && r.fd != Some(k))
  {
  }

  /** Opening an existing file fails only when all descriptors are in use. */
  lemma OpenFailsWhenFull(f: FileSystem, s: Vfs, path: Path, flags: nat, now: u64, k: nat)
    requires Wf(s) && Exists(f, s, path) && Open(f, s, path, flags, now).fd.None? && k < MAX_FDS
    ensures |s.fds| == MAX_FDS && (RESERVED <= k ==> s.fds[k].active)
  {
  }

  /** Two paths lead to the same file. */
  ghost predicate SameFile(s: Vfs, a: Path, b: Path) {
    Find(s, a).Some? && Find(s, b).Some? && Find(s, a).value.fs == Find(s, b).value.fs
    && M.Normalize(Find(s, a).value.rel) == M.Normalize(Find(s, b).value.rel)
  }

  lemma WriteAtContents(f: FileSystem, s: Vfs, path: Path, offset: nat, data: seq<byte>, now: u64, other: Path)
    requires Wf(s) && Behaves(f) && WriteAt(f, s, path, offset, data, now).ok
    ensures var r := WriteAt(f, s, path, offset, data, now).vfs;
            var was := match Contents(f, s, path) case None => [] case Some(c) => c;
            && r.mounts == s.mounts && r.fds == s.fds && |r.trees| == |s.trees|
            && Contents(f, r, path) == Some(Overlay(was, offset, data))
            && (!SameFile(s, path, other) ==> Contents(f, r, other) == Contents(f, s, other))
  {
    var t := Find(s, path).value;
    var rel' := match Find(s, other) case None => [] case Some(o) => o.rel;
    assert WriteOverlays(f, s.trees[t.fs], t.rel, offset, data, now, rel');
  }

  lemma WriteIs(f: FileSystem, s: Vfs, fd: nat, data: seq<byte>, now: u64)
    requires fd != 1 && fd != 2 && Write(f, s, fd, data, now).ok
    ensures fd < |s.fds|
    ensures var c := s.fds[fd]; var r := WriteAt(f, s, c.path, c.offset, data, now);
            r.ok && Write(f, s, fd, data, now).vfs == r.vfs.(fds := s.fds[fd := c.(offset := c.offset + |data|, dirty := true)])
  {
  }

  /** A write overlays the shared bytes at the cursor, zero-filling a hole, and moves the cursor; files that other paths
      lead to and all other cursors are untouched. */
  lemma WriteIsOverlay(f: FileSystem, s: Vfs, fd: nat, data: seq<byte>, now: u64, other: Path)
    requires Wf(s) && Behaves(f) && fd != 1 && fd != 2 && Write(f, s, fd, data, now).ok
    ensures fd < |s.fds|
    ensures var r := Write(f, s, fd, data, now).vfs; var c := s.fds[fd];
            var was := match Contents(f, s, c.path) case None => [] case Some(c) => c;
            && Wf(r) && r.mounts == s.mounts
            && Contents(f, r, c.path) == Some(Overlay(was, c.offset, data))
            && (!SameFile(s, c.path, other) ==> Contents(f, r, other) == Contents(f, s, other))
            && r.fds == s.fds[fd := c.(offset := c.offset + |data|, dirty := true)]
  {
    WriteIs(f, s, fd, data, now);
    var c := s.fds[fd];
    WriteAtContents(f, s, c.path, c.offset, data, now, other);
    MoveCursor(f, s, WriteAt(f, s, c.path, c.offset, data, now).vfs, s.fds[fd := c.(offset := c.offset + |data|, dirty := true)], c.path, other);
  }

  lemma MoveCursor(f: FileSystem, s: Vfs, r: Vfs, fds: seq<Fd>, a: Path, b: Path)
    requires Wf(s) && r.mounts == s.mounts && |r.trees| == |s.trees| && |fds| == |s.fds|
    ensures var r' := r.(fds := fds);
            Wf(r') && Contents(f, r', a) == Contents(f, r, a) && Contents(f, r', b) == Contents(f, r, b)
  {
  }

  lemma SameContents(f: FileSystem, s: Vfs, a: Path, b: Path)
    requires Behaves(f) && SameFile(s, a, b)
    ensures Contents(f, s, a) == Contents(f, s, b)
  {
    var t := Find(s, a).value;
    assert SameName(f, s.trees[t.fs], t.rel, Find(s, b).value.rel);
  }

  /** Bytes written through one descriptor are read through any other on the same file, once its cursor is there. */
  lemma WriteThenRead(f: FileSystem, s: Vfs, a: nat, b: nat, data: seq<byte>, now: u64)
    requires Wf(s) && Behaves(f) && a != 1 && a != 2 && Write(f, s, a, data, now).ok && b < |s.fds| && b != a
    requires s.fds[b].active && s.fds[b].readable && SameFile(s, s.fds[a].path, s.fds[b].path)
    requires s.fds[b].offset == s.fds[a].offset
    ensures Read(f, Write(f, s, a, data, now).vfs, b, |data|).data == Some(data)
  {
    WriteIsOverlay(f, s, a, data, now, s.fds[b].path);
    var r := Write(f, s, a, data, now).vfs;
    var was := match Contents(f, s, s.fds[a].path) case None => [] case Some(c) => c;
    SameContents(f, r, s.fds[a].path, s.fds[b].path);
    var all := Overlay(was, s.fds[a].offset, data);
    assert all[s.fds[a].offset..s.fds[a].offset + |data|] == data;
  }

  // ---- Reading a file in pieces -----------------------------------------------------------------------------------

  datatype Pieces = Pieces(vfs: Vfs, data: Option<seq<byte>>)

  /** Reads with buffers of these sizes, one after the other, joined. */
  ghost function ReadAll(f: FileSystem, s: Vfs, fd: nat, sizes: seq<nat>): Pieces
    decreases |sizes|
  {
    if sizes == [] then Pieces(s, Some([])) else
    var r := Read(f, s, fd, sizes[0]);
    if r.data.None? then Pieces(r.vfs, None) else
    var rest := ReadAll(f, r.vfs, fd, sizes[1..]);
    Pieces(rest.vfs, if rest.data.None? then None else Some(r.data.value + rest.data.value))
  }

  function Sum(sizes: seq<nat>): nat { if sizes == [] then 0 else sizes[0] + Sum(sizes[1..]) }

  /** A descriptor that can be read, with its cursor at `pos` of a file that holds `content`. */
  ghost predicate Reads(f: FileSystem, s: Vfs, fd: nat, content: seq<byte>, pos: nat) {
    && fd < |s.fds| && s.fds[fd].active && s.fds[fd].readable && s.fds[fd].offset == pos
    && Contents(f, s, s.fds[fd].path) == Some(content)
  }

  lemma OneRead(f: FileSystem, s: Vfs, fd: nat, n: nat, content: seq<byte>, pos: nat)
    requires Reads(f, s, fd, content, pos) && pos <= |content|
    ensures var r := Read(f, s, fd, n); var end := Min(pos + n, |content|);
            r.data == Some(content[pos..end]) && Reads(f, r.vfs, fd, content, end)
  {
    assert Slice(content, pos, n) == content[pos..Min(pos + n, |content|)];
    var r := Read(f, s, fd, n);
    assert Find(r.vfs, s.fds[fd].path) == Find(s, s.fds[fd].path);
  }

  /** Reads with any buffer sizes and no write in between join to the bytes from the cursor on, as many as the buffers
      take or the file has. */
  lemma {:induction false} ReadsJoin(f: FileSystem, s: Vfs, fd: nat, sizes: seq<nat>, content: seq<byte>, pos: nat)
    requires Reads(f, s, fd, content, pos) && pos <= |content|
    ensures var r := ReadAll(f, s, fd, sizes); var end := Min(pos + Sum(sizes), |content|);
            r.data == Some(content[pos..end]) && Reads(f, r.vfs, fd, content, end)
    decreases |sizes|
  {
    if sizes == [] {
      assert content[pos..pos] == [];
    } else {
      var mid, end := Min(pos + sizes[0], |content|), Min(pos + Sum(sizes), |content|);
      OneRead(f, s, fd, sizes[0], content, pos);
      ReadsJoin(f, Read(f, s, fd, sizes[0]).vfs, fd, sizes[1..], content, mid);
      assert content[pos..mid] + content[mid..end] == content[pos..end];
    }
  }

  lemma {:induction false} SumAtLeast(sizes: seq<nat>)
    requires forall i :: 0 <= i < |sizes| ==> sizes[i] > 0
    ensures Sum(sizes) >= |sizes|
  {
    if sizes != [] { SumAtLeast(sizes[1..]); }
  }

  /** Enough reads with non-empty buffers give the whole rest of the file, and the next read nothing. */
  lemma ReadsToTheEnd(f: FileSystem, s: Vfs, fd: nat, sizes: seq<nat>, content: seq<byte>, pos: nat, more: nat)
    requires Reads(f, s, fd, content, pos) && pos <= |content| <= pos + |sizes|
    requires forall i :: 0 <= i < |sizes| ==> sizes[i] > 0
    ensures var r := ReadAll(f, s, fd, sizes);
            r.data == Some(content[pos..]) && Read(f, r.vfs, fd, more).data == Some([])
  {
    SumAtLeast(sizes);
    ReadsJoin(f, s, fd, sizes, content, pos);
    var r := ReadAll(f, s, fd, sizes);
    assert content[pos..|content|] == content[pos..];
    NothingLeft(f, r.vfs, fd, more, content);
  }

  lemma NothingLeft(f: FileSystem, s: Vfs, fd: nat, n: nat, content: seq<byte>)
    requires Reads(f, s, fd, content, |content|)
    ensures Read(f, s, fd, n).data == Some([])
  {
  }

  /** What the open flags allow: 0 and 2 reading only, 1 writing only, 3 both. The comment in the source promises
      reading and writing for 2. */
  lemma OpenModes(f: FileSystem, s: Vfs, path: Path, flags: nat, now: u64)
    requires Wf(s) && flags < 4 && Open(f, s, path, flags, now).fd.Some?
    ensures var r := Open(f, s, path, flags, now); var d := r.vfs.fds[r.fd.value];
            (d.readable <==> flags in {0, 2, 3}) && (d.writable <==> flags in {1, 3})
  {
  }

  // ---- Whole runs -----------------------------------------------------------------------------------------------

  datatype Call =
    | OpenCall(path: Path, flags: nat)
    | ReadCall(fd: nat, n: nat)
    | WriteCall(fd: nat, data: seq<byte>)
    | SeekCall(fd: nat, offset: int, whence: int)
    | CloseCall(fd: nat)
    | CloseAllCall

  function Exec(f: FileSystem, s: Vfs, c: Call, now: u64): Vfs
    requires RESERVED <= |s.fds|
  {
    match c
    case OpenCall(path, flags) => Open(f, s, path, flags, now).vfs
    case ReadCall(fd, n) => Read(f, s, fd, n).vfs
    case WriteCall(fd, data) => Write(f, s, fd, data, now).vfs
    case SeekCall(fd, offset, whence) => Seek(f, s, fd, offset, whence).vfs
    case CloseCall(fd) => Close(s, fd).vfs
    case CloseAllCall => CloseAll(s)
  }

  /** The call names descriptor `k`, or closes all. */
  predicate Names(c: Call, k: nat) {
    match c
    case OpenCall(_, _) => false
    case CloseAllCall => k >= RESERVED
    case _ => c.fd == k
  }

  /** The first three descriptors are open, on no path. */
  ghost predicate Standard(s: Vfs) {
    RESERVED <= |s.fds| && forall i :: 0 <= i < RESERVED ==> s.fds[i].active && s.fds[i].path == []
  }

  /** Cursors are independent: a call leaves every open descriptor it does not name exactly as it was. */
  lemma CursorsAreIndependent(f: FileSystem, s: Vfs, c: Call, now: u64, k: nat)
    requires Wf(s) && k < |s.fds| && s.fds[k].active && !Names(c, k)
    ensures var r := Exec(f, s, c, now); k < |r.fds| && r.fds[k] == s.fds[k]
  {
  }

  lemma ExecKeeps(f: FileSystem, s: Vfs, c: Call, now: u64)
    requires Wf(s) && Standard(s)
    ensures Wf(Exec(f, s, c, now)) && Standard(Exec(f, s, c, now))
  {
    if c.OpenCall? { OpenIsFresh(f, s, c.path, c.flags, now, 0); }
  }

  ghost predicate IsRun(f: FileSystem, trace: seq<Vfs>, calls: seq<Call>, ticks: seq<u64>) {
    && |trace| == |calls| + 1 && |ticks| == |calls|
    && forall n :: 0 <= n < |calls| ==> RESERVED <= |trace[n].fds| && trace[n + 1] == Exec(f, trace[n], calls[n], ticks[n])
  }

  /** Over every run the first three descriptors stay open, and a descriptor that is open is handed out by no later
      call until some call has closed it. */
  lemma {:induction false} NeverReissued(f: FileSystem, trace: seq<Vfs>, calls: seq<Call>, ticks: seq<u64>, n: nat, k: nat)
    requires IsRun(f, trace, calls, ticks) && n < |trace| && Wf(trace[0]) && Standard(trace[0])
    requires k < |trace[0].fds| && trace[0].fds[k].active
    requires forall j :: 0 <= j < n ==> !(calls[j].CloseCall? && calls[j].fd == k) && !calls[j].CloseAllCall?
    ensures Wf(trace[n]) && Standard(trace[n])
    ensures k < |trace[n].fds| && trace[n].fds[k].active && trace[n].fds[k].path == trace[0].fds[k].path
    ensures n < |calls| && calls[n].OpenCall? ==> Open(f, trace[n], calls[n].path, calls[n].flags, ticks[n]).fd != Some(k)
  {
    if n > 0 {
      NeverReissued(f, trace, calls, ticks, n - 1, k);
      assert trace[n - 1 + 1] == Exec(f, trace[n - 1], calls[n - 1], ticks[n - 1]);
      ExecKeeps(f, trace[n - 1], calls[n - 1], ticks[n - 1]);
      StaysOpen(f, trace[n - 1], calls[n - 1], ticks[n - 1], k);
    }
    if n < |calls| && calls[n].OpenCall? { OpenIsFresh(f, trace[n], calls[n].path, calls[n].flags, ticks[n], k); }
  }

  lemma StaysOpen(f: FileSystem, s: Vfs, c: Call, now: u64, k: nat)
    requires Wf(s) && k < |s.fds| && s.fds[k].active && !(c.CloseCall? && c.fd == k) && !c.CloseAllCall?
    ensures var r := Exec(f, s, c, now); k < |r.fds| && r.fds[k].active && r.fds[k].path == s.fds[k].path
  {
    if !Names(c, k) { CursorsAreIndependent(f, s, c, now, k); }
  }
}
