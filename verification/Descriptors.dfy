/** Descriptors as independent cursors over shared byte strings: the abstract machine that every interleaving of
    open, read, write, seek and close refines. */
module Descriptors {
  import opened Bytes
  import opened VfsModel
  import M = RamFsModel
  import R = RamFs

  // ---- The abstract machine ----------------------------------------------------------------------------

  /** A file: the file system it lies on and its normalized name there. */
  datatype FileId = FileId(fs: nat, name: Path)

  /** Which file a path leads to; no descriptor call changes that. */
  datatype Space = Space(mounts: seq<Mount>, count: nat)

  datatype Cursor = Cursor(file: Option<FileId>, pos: nat, readable: bool, writable: bool)

  type Files = imap<FileId, seq<byte>>

  type Cursors = map<nat, Cursor>

  /** The bytes of every file, and a cursor for every open descriptor. */
  datatype Machine = Machine(space: Space, files: Files, open: Cursors)

  datatype Reply =
    | OpenReply(fd: Option<nat>, created: bool)
    | ReadReply(data: Option<seq<byte>>)
    | DoneReply(ok: bool)
    | SeekReply(pos: Option<nat>)

  function IdIn(sp: Space, path: Path): Option<FileId> {
    match Resolve(sp.mounts, path)
    case None => None
    case Some(t) => if t.fs < sp.count then Some(FileId(t.fs, M.Normalize(t.rel))) else None
  }

  ghost function BytesOf(files: Files, file: Option<FileId>): Option<seq<byte>> {
    if file.Some? && file.value in files then Some(files[file.value]) else None
  }

  function OrEmpty(b: Option<seq<byte>>): seq<byte> { match b case None => [] case Some(c) => c }

  predicate Writable(flags: nat) { flags % 2 == 1 }

  predicate Readable(flags: nat) { flags / 2 % 2 == 1 || flags == 0 }

  predicate Console(fd: nat) { fd == 1 || fd == 2 }

  /** What a call with its reply does to the bytes of files. */
  datatype Effect = Quiet | Made(id: FileId) | Wrote(id: FileId, pos: nat, data: seq<byte>)

  ghost function EffectOf(sp: Space, open: Cursors, c: Call, r: Reply): Effect {
    match (c, r)
    case (OpenCall(path, _), OpenReply(_, created)) =>
      var id := IdIn(sp, path); if created && id.Some? then Made(id.value) else Quiet
    case (WriteCall(fd, data), DoneReply(ok)) =>
      if ok && !Console(fd) && fd in open && open[fd].file.Some? then Wrote(open[fd].file.value, open[fd].pos, data) else Quiet
    case _ => Quiet
  }

  ghost function Later(b: Option<seq<byte>>, id: FileId, e: Effect): Option<seq<byte>> {
    match e
    case Quiet => b
    case Made(x) => if x == id then Some([]) else b
    case Wrote(x, pos, data) => if x == id then Some(Overlay(OrEmpty(b), pos, data)) else b
  }

  ghost function FilesAfter(files: Files, e: Effect): Files {
    match e
    case Quiet => files
    case Made(x) => files[x := []]
    case Wrote(x, pos, data) => files[x := Overlay(OrEmpty(BytesOf(files, Some(x))), pos, data)]
  }

  /** Where a call with its reply leaves the cursor of descriptor `k`. */
  function Moved(p: Option<nat>, k: nat, c: Call, r: Reply): Option<nat> {
    match (c, r)
    case (OpenCall(_, _), OpenReply(fd, _)) => if fd == Some(k) then Some(0) else p
    case (ReadCall(fd, _), ReadReply(data)) => if fd == k && data.Some? && p.Some? then Some(p.value + |data.value|) else p
    case (WriteCall(fd, data), DoneReply(ok)) => if fd == k && ok && !Console(fd) && p.Some? then Some(p.value + |data|) else p
    case (SeekCall(fd, _, _), SeekReply(pos)) => if fd == k && pos.Some? && p.Some? then pos else p
    case (CloseCall(fd), DoneReply(ok)) => if fd == k && ok then None else p
    case (CloseAllCall, _) => if k >= RESERVED then None else p
    case _ => p
  }

  function PosOf(open: Cursors, k: nat): Option<nat> { if k in open then Some(open[k].pos) else None }

  ghost function OpenAfter(sp: Space, open: Cursors, c: Call, r: Reply): Cursors {
    var handed := if c.OpenCall? && r.OpenReply? && r.fd.Some? then {r.fd.value} else {};
    map k | k in open.Keys + handed && Moved(PosOf(open, k), k, c, r).Some? ::
      var pos := Moved(PosOf(open, k), k, c, r).value;
      if k in handed then Cursor(IdIn(sp, c.path), pos, Readable(c.flags), Writable(c.flags)) else open[k].(pos := pos)
  }

  ghost function Act(m: Machine, c: Call, r: Reply): Machine {
    Machine(m.space, FilesAfter(m.files, EffectOf(m.space, m.open, c, r)), OpenAfter(m.space, m.open, c, r))
  }

  /** The replies the machine gives. A read is the slice of the shared bytes under the cursor; a seek counts from the
      start, the cursor or the end; a write fails only off a file; an open hands out a closed descriptor and fails on
      a file only when all are open. */
  ghost predicate Allowed(m: Machine, c: Call, r: Reply) {
    match c
    case OpenCall(path, flags) =>
      var id := IdIn(m.space, path);
      && r.OpenReply?
      && (r.created ==> Writable(flags) && id.Some? && id.value !in m.files)
      && (r.fd.Some? ==> id.Some? && RESERVED <= r.fd.value < MAX_FDS && r.fd.value !in m.open)
      && (r.fd.None? && (r.created || BytesOf(m.files, id).Some?) ==> forall k :: RESERVED <= k < MAX_FDS ==> k in m.open)
    case ReadCall(fd, n) =>
      && r.ReadReply?
      && r.data == (if fd !in m.open || !m.open[fd].readable then None else
                    var b := BytesOf(m.files, m.open[fd].file); if b.None? then None else Some(Slice(b.value, m.open[fd].pos, n)))
    case WriteCall(fd, data) =>
      && r.DoneReply?
      && (Console(fd) ==> r.ok)
      && (!Console(fd) && (fd !in m.open || !m.open[fd].writable || m.open[fd].file.None?) ==> !r.ok)
      && (fd in m.open && m.open[fd].writable && BytesOf(m.files, m.open[fd].file).Some? ==> r.ok)
    case SeekCall(fd, offset, whence) =>
      && r.SeekReply?
      && r.pos == (if fd < RESERVED || fd !in m.open || !(0 <= whence <= 2) then None else
                   var base := if whence == 0 then 0 else if whence == 1 then m.open[fd].pos
                               else |OrEmpty(BytesOf(m.files, m.open[fd].file))|;
                   if offset + base < 0 then None else Some(offset + base))
    case CloseCall(fd) => r == DoneReply(fd >= RESERVED && fd in m.open)
    case CloseAllCall => r == DoneReply(true)
  }

  // ---- The abstraction of a descriptor table over file systems ---------------------------------------------

  ghost function SpaceOf(s: Vfs): Space { Space(s.mounts, |s.trees|) }

  predicate Normal(id: FileId) { M.Normalize(id.name) == id.name }

  function BytesAt(f: FileSystem, s: Vfs, id: FileId): Option<seq<byte>> {
    if id.fs < |s.trees| && Normal(id) then f.bytes(s.trees[id.fs], id.name) else None
  }

  ghost function FilesOf(f: FileSystem, s: Vfs): Files {
    imap id | BytesAt(f, s, id).Some? :: BytesAt(f, s, id).value
  }

  function CursorOf(sp: Space, c: Fd): Cursor { Cursor(IdIn(sp, c.path), c.offset, c.readable, c.writable) }

  ghost function OpenOf(sp: Space, fds: seq<Fd>): Cursors {
    map k: nat | k < |fds| && fds[k].active :: CursorOf(sp, fds[k])
  }

  ghost function Abstract(f: FileSystem, s: Vfs): Machine { Machine(SpaceOf(s), FilesOf(f, s), OpenOf(SpaceOf(s), s.fds)) }

  /** The reply of the call. */
  ghost function ReplyOf(f: FileSystem, s: Vfs, c: Call, now: u64): Reply
    requires RESERVED <= |s.fds|
  {
    match c
    case OpenCall(path, flags) =>
      OpenReply(Open(f, s, path, flags, now).fd, !Exists(f, s, path) && Writable(flags) && Touch(f, s, path, now).ok)
    case ReadCall(fd, n) => ReadReply(Read(f, s, fd, n).data)
    case WriteCall(fd, data) => DoneReply(Write(f, s, fd, data, now).ok)
    case SeekCall(fd, offset, whence) => SeekReply(Seek(f, s, fd, offset, whence).pos)
    case CloseCall(fd) => DoneReply(Close(s, fd).ok)
    case CloseAllCall => DoneReply(true)
  }

  lemma NormalizeTwice(p: Path)
    ensures M.Normalize(M.Normalize(p)) == M.Normalize(p)
  {
  }

  lemma FindIsId(s: Vfs, path: Path)
    ensures IdIn(SpaceOf(s), path) == match Find(s, path) case None => None case Some(t) => Some(FileId(t.fs, M.Normalize(t.rel)))
  {
  }

  /** The bytes a path leads to are those of its file. */
  lemma ContentsAre(f: FileSystem, s: Vfs, path: Path)
    requires Behaves(f)
    ensures Contents(f, s, path) == BytesOf(FilesOf(f, s), IdIn(SpaceOf(s), path))
  {
    FindIsId(s, path);
    var t := Find(s, path);
    if t.Some? {
      NormalizeTwice(t.value.rel);
      assert SameName(f, s.trees[t.value.fs], t.value.rel, M.Normalize(t.value.rel));
    }
  }

  // ---- One step ------------------------------------------------------------------------------------------------

  /** A change of one file system by one effect. */
  ghost predicate Changes(f: FileSystem, s: Vfs, r: Vfs, e: Effect) {
    SpaceOf(r) == SpaceOf(s) && forall id :: BytesAt(f, r, id) == Later(BytesAt(f, s, id), id, e)
  }

  lemma FilesChange(f: FileSystem, s: Vfs, r: Vfs, e: Effect)
    requires Changes(f, s, r, e) && (e.Quiet? || Normal(e.id))
    ensures FilesOf(f, r) == FilesAfter(FilesOf(f, s), e)
  {
    var l, x := FilesOf(f, r), FilesAfter(FilesOf(f, s), e);
    forall id ensures BytesOf(l, Some(id)) == BytesOf(x, Some(id)) { FilesAt(f, s, r, e, id); }
    SameBytes(l, x);
  }

  lemma FilesAt(f: FileSystem, s: Vfs, r: Vfs, e: Effect, id: FileId)
    requires Changes(f, s, r, e)
    ensures BytesOf(FilesOf(f, r), Some(id)) == BytesOf(FilesAfter(FilesOf(f, s), e), Some(id))
  {
    assert BytesAt(f, r, id) == Later(BytesAt(f, s, id), id, e);
    assert BytesOf(FilesOf(f, s), Some(id)) == BytesAt(f, s, id) && BytesOf(FilesOf(f, r), Some(id)) == BytesAt(f, r, id);
    FilesAfterAt(FilesOf(f, s), e, id);
  }

  lemma SameBytes(l: Files, x: Files)
    requires forall id :: BytesOf(l, Some(id)) == BytesOf(x, Some(id))
    ensures l == x
  {
    forall id ensures (id in l <==> id in x) && (id in l ==> l[id] == x[id]) {
      assert BytesOf(l, Some(id)) == BytesOf(x, Some(id));
    }
  }

  lemma FilesAfterAt(files: Files, e: Effect, id: FileId)
    ensures BytesOf(FilesAfter(files, e), Some(id)) == Later(BytesOf(files, Some(id)), id, e)
  {
  }

  lemma TouchChanges(f: FileSystem, s: Vfs, path: Path, now: u64)
    requires Behaves(f) && !Exists(f, s, path)
    ensures var r := Touch(f, s, path, now); var id := IdIn(SpaceOf(s), path);
            && (r.ok ==> id.Some? && Normal(id.value) && id.value !in FilesOf(f, s))
            && Changes(f, s, r.vfs, if r.ok then Made(id.value) else Quiet)
  {
    FindIsId(s, path);
    var t := Find(s, path);
    if t.Some? {
      NormalizeTwice(t.value.rel);
      var id := IdIn(SpaceOf(s), path).value;
      var tree := s.trees[t.value.fs];
      assert SameName(f, tree, t.value.rel, id.name);
      assert TouchCreates(f, tree, t.value.rel, now, id.name);
      var r := Touch(f, s, path, now);
      assert SameName(f, r.vfs.trees[id.fs], t.value.rel, id.name);
      forall x ensures BytesAt(f, r.vfs, x) == Later(BytesAt(f, s, x), x, if r.ok then Made(id) else Quiet) {
        assert TouchCreates(f, tree, t.value.rel, now, x.name);
      }
    }
  }

  lemma WriteAtChanges(f: FileSystem, s: Vfs, path: Path, offset: nat, data: seq<byte>, now: u64)
    requires Behaves(f)
    ensures var r := WriteAt(f, s, path, offset, data, now); var id := IdIn(SpaceOf(s), path);
            && (r.ok ==> id.Some? && Normal(id.value)) && (BytesOf(FilesOf(f, s), id).Some? ==> r.ok)
            && r.vfs.fds == s.fds
            && Changes(f, s, r.vfs, if r.ok then Wrote(id.value, offset, data) else Quiet)
  {
    FindIsId(s, path);
    var t := Find(s, path);
    if t.Some? {
      NormalizeTwice(t.value.rel);
      var id := IdIn(SpaceOf(s), path).value;
      var tree := s.trees[t.value.fs];
      assert SameName(f, tree, t.value.rel, id.name);
      assert WriteOverlays(f, tree, t.value.rel, offset, data, now, id.name);
      var r := WriteAt(f, s, path, offset, data, now);
      assert SameName(f, r.vfs.trees[id.fs], t.value.rel, id.name);
      forall x ensures BytesAt(f, r.vfs, x) == Later(BytesAt(f, s, x), x, if r.ok then Wrote(id, offset, data) else Quiet) {
        assert WriteOverlays(f, tree, t.value.rel, offset, data, now, x.name);
      }
    }
  }

  lemma SameFiles(f: FileSystem, s: Vfs, r: Vfs)
    requires r.mounts == s.mounts && r.trees == s.trees
    ensures FilesOf(f, r) == FilesOf(f, s) && SpaceOf(r) == SpaceOf(s)
  {
    forall id ensures BytesAt(f, r, id) == BytesAt(f, s, id) {}
    assert FilesOf(f, r) == FilesOf(f, s);
  }

  /** The call does what the machine does and gives a reply the machine gives. */
  ghost predicate Refines(f: FileSystem, s: Vfs, c: Call, now: u64)
    requires RESERVED <= |s.fds|
  {
    var m, r := Abstract(f, s), ReplyOf(f, s, c, now);
    Allowed(m, c, r) && Abstract(f, Exec(f, s, c, now)) == Act(m, c, r)
  }

  lemma OpenRefines(f: FileSystem, s: Vfs, path: Path, flags: nat, now: u64)
    requires Wf(s) && Behaves(f)
    ensures Refines(f, s, OpenCall(path, flags), now)
  {
    var c := OpenCall(path, flags);
    var m, r, out := Abstract(f, s), ReplyOf(f, s, c, now), Open(f, s, path, flags, now);
    FindIsId(s, path);
    ContentsAre(f, s, path);
    if !Exists(f, s, path) { TouchChanges(f, s, path, now); } else { ExistsNamed(f, s, path); }
    OpenIsFresh(f, s, path, flags, now, 0);
    OpenFiles(f, s, path, flags, now);
    OpenTable(f, s, path, flags, now, SpaceOf(s));
    OpenReplies(f, s, path, flags, now);
  }

  lemma ExistsNamed(f: FileSystem, s: Vfs, path: Path)
    requires Exists(f, s, path)
    ensures IdIn(SpaceOf(s), path).Some?
  {
    FindIsId(s, path);
  }

  lemma ContentsExist(f: FileSystem, s: Vfs, path: Path)
    requires Behaves(f) && Contents(f, s, path).Some?
    ensures Exists(f, s, path)
  {
    var t := Find(s, path).value;
    assert TouchCreates(f, s.trees[t.fs], t.rel, 0, t.rel);
  }

  lemma OpenReplies(f: FileSystem, s: Vfs, path: Path, flags: nat, now: u64)
    requires Wf(s) && Behaves(f)
    ensures Allowed(Abstract(f, s), OpenCall(path, flags), ReplyOf(f, s, OpenCall(path, flags), now))
  {
    var open, r := OpenOf(SpaceOf(s), s.fds), ReplyOf(f, s, OpenCall(path, flags), now);
    ContentsAre(f, s, path);
    if Contents(f, s, path).Some? { ContentsExist(f, s, path); }
    if !Exists(f, s, path) { TouchChanges(f, s, path, now); } else { ExistsNamed(f, s, path); }
    OpenIsFresh(f, s, path, flags, now, 0);
    if r.fd.None? && (r.created || Exists(f, s, path)) {
      forall k | RESERVED <= k < MAX_FDS ensures k in open {}
    }
  }

  lemma OpenFiles(f: FileSystem, s: Vfs, path: Path, flags: nat, now: u64)
    requires Wf(s) && Behaves(f)
    ensures var c := OpenCall(path, flags); var r := Open(f, s, path, flags, now).vfs; var sp := SpaceOf(s);
            SpaceOf(r) == sp && FilesOf(f, r) == FilesAfter(FilesOf(f, s), EffectOf(sp, OpenOf(sp, s.fds), c, ReplyOf(f, s, c, now)))
  {
    var r := Open(f, s, path, flags, now).vfs;
    if !Exists(f, s, path) && Writable(flags) {
      TouchChanges(f, s, path, now);
      var t := Touch(f, s, path, now);
      FilesChange(f, s, t.vfs, if t.ok then Made(IdIn(SpaceOf(s), path).value) else Quiet);
      SameFiles(f, t.vfs, r);
    } else {
      SameFiles(f, s, r);
    }
  }

  lemma OpenTable(f: FileSystem, s: Vfs, path: Path, flags: nat, now: u64, sp: Space)
    requires Wf(s)
    ensures var c := OpenCall(path, flags); var out := Open(f, s, path, flags, now);
            OpenOf(sp, out.vfs.fds) == OpenAfter(sp, OpenOf(sp, s.fds), c, ReplyOf(f, s, c, now))
  {
    var c := OpenCall(path, flags);
    var out, r := Open(f, s, path, flags, now), ReplyOf(f, s, c, now);
    if out.fd.Some? { HandedTable(sp, s.fds, out.vfs.fds, c, r, out.fd.value); } else { StillTable(sp, s.fds, c, r); }
  }

  /** A table with one descriptor handed out. */
  lemma HandedTable(sp: Space, fds: seq<Fd>, now: seq<Fd>, c: Call, r: Reply, fd: nat)
    requires c.OpenCall? && r.OpenReply? && r.fd == Some(fd)
    requires fd < |now| && now[fd] == Fd(c.path, 0, true, Readable(c.flags), Writable(c.flags), false)
    requires |fds| <= |now| <= (if fd < |fds| then |fds| else fd + 1) && fd <= |fds|
    requires forall k :: 0 <= k < |fds| && k != fd ==> now[k] == fds[k]
    ensures OpenOf(sp, now) == OpenAfter(sp, OpenOf(sp, fds), c, r)
  {
    var l, x := OpenOf(sp, now), OpenAfter(sp, OpenOf(sp, fds), c, r);
    forall k: nat ensures (k in l <==> k in x) && (k in l ==> l[k] == x[k]) {
      if k != fd { assert Moved(PosOf(OpenOf(sp, fds), k), k, c, r) == PosOf(OpenOf(sp, fds), k); }
    }
    assert l == x;
  }

  lemma MovesOnly(p: Option<nat>, k: nat, c: Call, r: Reply)
    requires (c.ReadCall? || c.WriteCall? || c.SeekCall?) && c.fd != k
    ensures Moved(p, k, c, r) == p
  {
  }

  /** The reply says that no cursor has moved. */
  predicate Idle(c: Call, r: Reply) {
    match r
    case OpenReply(fd, _) => c.OpenCall? && fd.None?
    case ReadReply(data) => c.ReadCall? && data.None?
    case DoneReply(ok) => c.WriteCall? && (!ok || Console(c.fd))
    case SeekReply(pos) => c.SeekCall? && pos.None?
  }

  lemma IdleStays(p: Option<nat>, k: nat, c: Call, r: Reply)
    requires Idle(c, r)
    ensures Moved(p, k, c, r) == p
  {
  }

  /** A table with one descriptor moved. */
  lemma MovedTable(sp: Space, fds: seq<Fd>, c: Call, r: Reply, fd: nat, d: Fd)
    requires (c.ReadCall? || c.WriteCall? || c.SeekCall?) && c.fd == fd < |fds| && fds[fd].active
    requires d.path == fds[fd].path && d.active && d.readable == fds[fd].readable && d.writable == fds[fd].writable
    requires Moved(Some(fds[fd].offset), fd, c, r) == Some(d.offset)
    ensures OpenOf(sp, fds[fd := d]) == OpenAfter(sp, OpenOf(sp, fds), c, r)
  {
    var l, x := OpenOf(sp, fds[fd := d]), OpenAfter(sp, OpenOf(sp, fds), c, r);
    forall k: nat ensures (k in l <==> k in x) && (k in l ==> l[k] == x[k]) {
      if k != fd { MovesOnly(PosOf(OpenOf(sp, fds), k), k, c, r); }
    }
    assert l == x;
  }

  lemma StillTable(sp: Space, fds: seq<Fd>, c: Call, r: Reply)
    requires Idle(c, r)
    ensures OpenOf(sp, fds) == OpenAfter(sp, OpenOf(sp, fds), c, r)
  {
    var l, x := OpenOf(sp, fds), OpenAfter(sp, OpenOf(sp, fds), c, r);
    forall k: nat ensures (k in l <==> k in x) && (k in l ==> l[k] == x[k]) {
      IdleStays(PosOf(OpenOf(sp, fds), k), k, c, r);
    }
    assert l == x;
  }

  lemma ReadRefines(f: FileSystem, s: Vfs, fd: nat, n: nat, now: u64)
    requires Wf(s) && Behaves(f)
    ensures Refines(f, s, ReadCall(fd, n), now)
  {
    var out := Read(f, s, fd, n);
    if fd < |s.fds| { ContentsAre(f, s, s.fds[fd].path); }
    ReadTable(f, s, fd, n, SpaceOf(s));
    SameFiles(f, s, out.vfs);
  }

  lemma ReadTable(f: FileSystem, s: Vfs, fd: nat, n: nat, sp: Space)
    ensures var out := Read(f, s, fd, n);
            OpenOf(sp, out.vfs.fds) == OpenAfter(sp, OpenOf(sp, s.fds), ReadCall(fd, n), ReadReply(out.data))
  {
    var c, out := ReadCall(fd, n), Read(f, s, fd, n);
    if out.data.Some? { MovedTable(sp, s.fds, c, ReadReply(out.data), fd, out.vfs.fds[fd]); }
    else { StillTable(sp, s.fds, c, ReadReply(out.data)); }
  }

  lemma SeekRefines(f: FileSystem, s: Vfs, fd: nat, offset: int, whence: int, now: u64)
    requires Wf(s) && Behaves(f)
    ensures Refines(f, s, SeekCall(fd, offset, whence), now)
  {
    var out := Seek(f, s, fd, offset, whence);
    SeekReplies(f, s, fd, offset, whence, now);
    SeekTable(f, s, fd, offset, whence, SpaceOf(s));
    SameFiles(f, s, out.vfs);
  }

  lemma SeekReplies(f: FileSystem, s: Vfs, fd: nat, offset: int, whence: int, now: u64)
    requires Wf(s) && Behaves(f)
    ensures Allowed(Abstract(f, s), SeekCall(fd, offset, whence), ReplyOf(f, s, SeekCall(fd, offset, whence), now))
  {
    if fd < |s.fds| && s.fds[fd].active { SeekBase(f, s, fd); }
  }

  /** What a seek starts from: the cursor and the size of the file. */
  lemma SeekBase(f: FileSystem, s: Vfs, fd: nat)
    requires Behaves(f) && fd < |s.fds| && s.fds[fd].active
    ensures var open := OpenOf(SpaceOf(s), s.fds); var content := Contents(f, s, s.fds[fd].path);
            && fd in open && open[fd].pos == s.fds[fd].offset
            && |OrEmpty(BytesOf(FilesOf(f, s), open[fd].file))| == (match content case None => 0 case Some(c) => |c|)
  {
    ContentsAre(f, s, s.fds[fd].path);
  }

  lemma SeekTable(f: FileSystem, s: Vfs, fd: nat, offset: int, whence: int, sp: Space)
    ensures var out := Seek(f, s, fd, offset, whence);
            OpenOf(sp, out.vfs.fds) == OpenAfter(sp, OpenOf(sp, s.fds), SeekCall(fd, offset, whence), SeekReply(out.pos))
  {
    var c, out := SeekCall(fd, offset, whence), Seek(f, s, fd, offset, whence);
    if out.pos.Some? { MovedTable(sp, s.fds, c, SeekReply(out.pos), fd, out.vfs.fds[fd]); }
    else { StillTable(sp, s.fds, c, SeekReply(out.pos)); }
  }

  /** A descriptor that is open for writing. */
  ghost predicate Writing(s: Vfs, fd: nat) { !Console(fd) && fd < |s.fds| && s.fds[fd].active && s.fds[fd].writable }

  lemma WriteRefines(f: FileSystem, s: Vfs, fd: nat, data: seq<byte>, now: u64)
    requires Wf(s) && Behaves(f)
    ensures Refines(f, s, WriteCall(fd, data), now)
  {
    var c := WriteCall(fd, data);
    WriteTable(f, s, fd, data, now, SpaceOf(s));
    if Writing(s, fd) {
      var d := s.fds[fd];
      WriteAtChanges(f, s, d.path, d.offset, data, now);
      WriteFiles(f, s, fd, data, now, WriteAt(f, s, d.path, d.offset, data, now));
    }
  }

  lemma WriteFiles(f: FileSystem, s: Vfs, fd: nat, data: seq<byte>, now: u64, w: Changed)
    requires Wf(s) && Writing(s, fd) && w == WriteAt(f, s, s.fds[fd].path, s.fds[fd].offset, data, now)
    requires var id := IdIn(SpaceOf(s), s.fds[fd].path);
             && (w.ok ==> id.Some? && Normal(id.value))
             && Changes(f, s, w.vfs, if w.ok then Wrote(id.value, s.fds[fd].offset, data) else Quiet)
    ensures var c := WriteCall(fd, data); var v := Write(f, s, fd, data, now).vfs; var sp := SpaceOf(s);
            SpaceOf(v) == sp && FilesOf(f, v) == FilesAfter(FilesOf(f, s), EffectOf(sp, OpenOf(sp, s.fds), c, ReplyOf(f, s, c, now)))
  {
    FilesChange(f, s, w.vfs, EffectOf(SpaceOf(s), OpenOf(SpaceOf(s), s.fds), WriteCall(fd, data), DoneReply(w.ok)));
    SameFiles(f, w.vfs, Write(f, s, fd, data, now).vfs);
  }

  lemma WriteTable(f: FileSystem, s: Vfs, fd: nat, data: seq<byte>, now: u64, sp: Space)
    ensures var out := Write(f, s, fd, data, now);
            OpenOf(sp, out.vfs.fds) == OpenAfter(sp, OpenOf(sp, s.fds), WriteCall(fd, data), DoneReply(out.ok))
  {
    var c, out := WriteCall(fd, data), Write(f, s, fd, data, now);
    if out.ok && !Console(fd) { MovedTable(sp, s.fds, c, DoneReply(true), fd, out.vfs.fds[fd]); }
    else { StillTable(sp, s.fds, c, DoneReply(out.ok)); }
  }

  lemma CloseRefines(f: FileSystem, s: Vfs, fd: nat, now: u64)
    requires Wf(s)
    ensures Refines(f, s, CloseCall(fd), now)
  {
    SameFiles(f, s, Close(s, fd).vfs);
    CloseTable(s, fd, SpaceOf(s));
  }

  lemma CloseTable(s: Vfs, fd: nat, sp: Space)
    ensures var out := Close(s, fd); OpenOf(sp, out.vfs.fds) == OpenAfter(sp, OpenOf(sp, s.fds), CloseCall(fd), DoneReply(out.ok))
  {
    var out := Close(s, fd);
    var l, x := OpenOf(sp, out.vfs.fds), OpenAfter(sp, OpenOf(sp, s.fds), CloseCall(fd), DoneReply(out.ok));
    assert l == x;
  }

  lemma CloseAllRefines(f: FileSystem, s: Vfs, now: u64)
    requires Wf(s)
    ensures Refines(f, s, CloseAllCall, now)
  {
    SameFiles(f, s, CloseAll(s));
    CloseAllTable(s, SpaceOf(s));
  }

  lemma CloseAllTable(s: Vfs, sp: Space)
    ensures OpenOf(sp, CloseAll(s).fds) == OpenAfter(sp, OpenOf(sp, s.fds), CloseAllCall, DoneReply(true))
  {
    var l, x := OpenOf(sp, CloseAll(s).fds), OpenAfter(sp, OpenOf(sp, s.fds), CloseAllCall, DoneReply(true));
    assert l == x;
  }

  /** Every call on any descriptor table refines a step of the machine. */
  lemma StepRefines(f: FileSystem, s: Vfs, c: Call, now: u64)
    requires Wf(s) && Behaves(f)
    ensures Refines(f, s, c, now)
  {
    match c
    case OpenCall(path, flags) => OpenRefines(f, s, path, flags, now);
    case ReadCall(fd, n) => ReadRefines(f, s, fd, n, now);
    case WriteCall(fd, data) => WriteRefines(f, s, fd, data, now);
    case SeekCall(fd, offset, whence) => SeekRefines(f, s, fd, offset, whence, now);
    case CloseCall(fd) => CloseRefines(f, s, fd, now);
    case CloseAllCall => CloseAllRefines(f, s, now);
  }

  // ---- Every run -----------------------------------------------------------------------------------------------

  /** The machine after the first `n` calls and their replies. */
  ghost function Fold(m: Machine, calls: seq<Call>, replies: seq<Reply>, n: nat): Machine
    requires n <= |calls| == |replies|
  {
    if n == 0 then m else Act(Fold(m, calls, replies, n - 1), calls[n - 1], replies[n - 1])
  }

  ghost predicate Replied(f: FileSystem, trace: seq<Vfs>, calls: seq<Call>, ticks: seq<u64>, replies: seq<Reply>) {
    && IsRun(f, trace, calls, ticks) && |replies| == |calls|
    && forall n :: 0 <= n < |calls| ==> replies[n] == ReplyOf(f, trace[n], calls[n], ticks[n])
  }

  /** In every state of every run the table and the file systems are what the machine says after the calls and
      replies so far, and the next reply is one the machine gives. */
  lemma {:induction false} RunRefines(f: FileSystem, trace: seq<Vfs>, calls: seq<Call>, ticks: seq<u64>, replies: seq<Reply>, n: nat)
    requires Replied(f, trace, calls, ticks, replies) && Behaves(f) && Wf(trace[0]) && Standard(trace[0]) && n < |trace|
    ensures Wf(trace[n]) && Standard(trace[n])
    ensures var m := Fold(Abstract(f, trace[0]), calls, replies, n);
            Abstract(f, trace[n]) == m && (n < |calls| ==> Allowed(m, calls[n], replies[n]))
  {
    if n > 0 {
      RunRefines(f, trace, calls, ticks, replies, n - 1);
      assert trace[n - 1 + 1] == Exec(f, trace[n - 1], calls[n - 1], ticks[n - 1]);
      ExecKeeps(f, trace[n - 1], calls[n - 1], ticks[n - 1]);
      StepRefines(f, trace[n - 1], calls[n - 1], ticks[n - 1]);
    }
    if n < |calls| { StepRefines(f, trace[n], calls[n], ticks[n]); }
  }

  /** The cursor of descriptor `k` after `n` calls, from the calls and replies alone. */
  function PosAfter(p: Option<nat>, k: nat, calls: seq<Call>, replies: seq<Reply>, n: nat): Option<nat>
    requires n <= |calls| == |replies|
  {
    if n == 0 then p else Moved(PosAfter(p, k, calls, replies, n - 1), k, calls[n - 1], replies[n - 1])
  }

  /** What call number `i` of a run does to the bytes of files. */
  ghost function EffectAt(m: Machine, calls: seq<Call>, replies: seq<Reply>, i: nat): Effect
    requires |calls| == |replies|
  {
    if i >= |calls| then Quiet else
    var m1 := Fold(m, calls, replies, i); EffectOf(m1.space, m1.open, calls[i], replies[i])
  }

  /** The bytes of a file after `n` effects: its creations and overlays in order. */
  ghost function BytesAfter(b: Option<seq<byte>>, id: FileId, effects: nat -> Effect, n: nat): Option<seq<byte>> {
    if n == 0 then b else Later(BytesAfter(b, id, effects, n - 1), id, effects(n - 1))
  }

  /** A descriptor is moved by the calls that name it and by nothing else. */
  lemma {:induction false} CursorIsItsOwn(m: Machine, calls: seq<Call>, replies: seq<Reply>, k: nat, n: nat)
    requires n <= |calls| == |replies|
    ensures PosOf(Fold(m, calls, replies, n).open, k) == PosAfter(PosOf(m.open, k), k, calls, replies, n)
  {
    if n > 0 {
      CursorIsItsOwn(m, calls, replies, k, n - 1);
      ActAt(Fold(m, calls, replies, n - 1), calls[n - 1], replies[n - 1], k);
    }
  }

  lemma ActAt(m: Machine, c: Call, r: Reply, k: nat)
    ensures PosOf(Act(m, c, r).open, k) == Moved(PosOf(m.open, k), k, c, r)
  {
  }

  /** The bytes of a file are its overlays in order. */
  lemma BytesAreOverlays(m: Machine, calls: seq<Call>, replies: seq<Reply>, id: FileId, n: nat)
    requires n <= |calls| == |replies|
    ensures BytesOf(Fold(m, calls, replies, n).files, Some(id))
         == BytesAfter(BytesOf(m.files, Some(id)), id, (i: nat) => EffectAt(m, calls, replies, i), n)
  {
    var bytes := (i: nat) => if i <= |calls| then BytesOf(Fold(m, calls, replies, i).files, Some(id)) else None;
    var effects := (i: nat) => EffectAt(m, calls, replies, i);
    forall i: nat | i < n ensures bytes(i + 1) == Later(bytes(i), id, effects(i)) { FoldBytes(m, calls, replies, id, i); }
    Accumulates(bytes, id, effects, n);
  }

  lemma FoldBytes(m: Machine, calls: seq<Call>, replies: seq<Reply>, id: FileId, i: nat)
    requires i < |calls| == |replies|
    ensures BytesOf(Fold(m, calls, replies, i + 1).files, Some(id))
         == Later(BytesOf(Fold(m, calls, replies, i).files, Some(id)), id, EffectAt(m, calls, replies, i))
  {
    FilesAfterAt(Fold(m, calls, replies, i).files, EffectAt(m, calls, replies, i), id);
  }

  lemma {:induction false} Accumulates(bytes: nat -> Option<seq<byte>>, id: FileId, effects: nat -> Effect, n: nat)
    requires forall i: nat | i < n :: bytes(i + 1) == Later(bytes(i), id, effects(i))
    ensures bytes(n) == BytesAfter(bytes(0), id, effects, n)
  {
    if n > 0 {
      Accumulates(bytes, id, effects, n - 1);
      assert bytes(n - 1 + 1) == Later(bytes(n - 1), id, effects(n - 1));
    }
  }

  /** Independent cursors over shared byte strings: in every run, whatever other descriptors have done in between,
      a read returns the bytes of the file's overlays so far under the descriptor's own cursor, as many as the buffer
      takes or the file has. */
  lemma ReadOverRuns(f: FileSystem, trace: seq<Vfs>, calls: seq<Call>, ticks: seq<u64>, replies: seq<Reply>, n: nat, id: FileId)
    requires Replied(f, trace, calls, ticks, replies) && Behaves(f) && Wf(trace[0]) && Standard(trace[0])
    requires n < |calls| && calls[n].ReadCall? && calls[n].fd < |trace[n].fds|
    requires var d := trace[n].fds[calls[n].fd]; d.active && d.readable && IdIn(SpaceOf(trace[n]), d.path) == Some(id)
    ensures var m := Abstract(f, trace[0]); var fd := calls[n].fd;
            var pos := PosAfter(PosOf(m.open, fd), fd, calls, replies, n);
            var bytes := BytesAfter(BytesOf(m.files, Some(id)), id, (i: nat) => EffectAt(m, calls, replies, i), n);
            var data := Read(f, trace[n], fd, calls[n].n).data;
            && pos == Some(trace[n].fds[fd].offset) && data.Some? == bytes.Some?
            && (data.Some? ==> Under(data.value, bytes.value, pos.value, calls[n].n))
  {
    var m := Abstract(f, trace[0]);
    RunRefines(f, trace, calls, ticks, replies, n);
    CursorIsItsOwn(m, calls, replies, calls[n].fd, n);
    BytesAreOverlays(m, calls, replies, id, n);
    ReadHere(f, trace[n], calls[n].fd, calls[n].n, id);
  }

  lemma ReadHere(f: FileSystem, s: Vfs, fd: nat, n: nat, id: FileId)
    requires Wf(s) && Behaves(f) && fd < |s.fds| && s.fds[fd].active && s.fds[fd].readable
    requires IdIn(SpaceOf(s), s.fds[fd].path) == Some(id)
    ensures var m := Abstract(f, s); var bytes := BytesOf(m.files, Some(id)); var data := Read(f, s, fd, n).data;
            && PosOf(m.open, fd) == Some(s.fds[fd].offset) && data.Some? == bytes.Some?
            && (data.Some? ==> Under(data.value, bytes.value, s.fds[fd].offset, n))
  {
    ContentsAre(f, s, s.fds[fd].path);
    var content := Contents(f, s, s.fds[fd].path);
    if content.Some? { SliceIs(content.value, s.fds[fd].offset, n); }
  }
}
