/** The mount list and the descriptor table in their own form. */
module Vfs {
  import opened Bytes
  import opened Paths
  import M = VfsModel
  import R = RamFs

  type Path = M.Path

  class Table {
    const sys: M.FileSystem
    var mounts: seq<M.Mount>
    var trees: seq<R.State>
    var fds: seq<M.Fd>

    ghost function Value(): M.Vfs
      reads this
    {
      M.Vfs(mounts, trees, fds)
    }

    ghost predicate Valid()
      reads this
    {
      M.Wf(Value()) && M.Standard(Value()) && M.Longest1st(mounts) && M.Distinct(mounts) && |mounts| <= M.MAX_MOUNTS
    }

    /** `init`: no mounts, and the three standard descriptors. */
    constructor (sys: M.FileSystem, trees: seq<R.State>)
      ensures Valid() && this.sys == sys && mounts == [] && this.trees == trees && |fds| == M.RESERVED
    {
      this.sys := sys;
      mounts := [];
      this.trees := trees;
      fds := [M.Fd([], 0, true, true, false, false), M.Fd([], 0, true, false, true, false), M.Fd([], 0, true, false, true, false)];
    }

    method Mount(path: Path, fs: nat) returns (ok: bool)
      requires Valid() && fs < |trees|
      modifies this`mounts
      ensures Valid() && M.AddMount(old(mounts), path, fs) == M.Mounted(mounts, ok)
    {
      M.AddMountKeeps(mounts, path, fs);
      var used := InUse(path);
      if used || |mounts| >= M.MAX_MOUNTS { return false; }
      mounts := Sorted(mounts, M.Mount(path, fs));
      ok := true;
    }

    method InUse(path: Path) returns (used: bool)
      ensures used == M.InUse(mounts, path)
    {
      for i := 0 to |mounts|
        invariant forall j :: 0 <= j < i ==> mounts[j].path != path
      {
        if mounts[i].path == path { return true; }
      }
      used := false;
    }

    /** Stable sort of a sorted list with one entry pushed behind it. */
    static method Sorted(ms: seq<M.Mount>, m: M.Mount) returns (r: seq<M.Mount>)
      ensures r == ms[..M.Place(ms, |m.path|)] + [m] + ms[M.Place(ms, |m.path|)..]
    {
      var k := 0;
      assert ms[0..] == ms;
      while k < |ms| && |ms[k].path| >= |m.path|
        invariant 0 <= k <= |ms| && k + M.Place(ms[k..], |m.path|) == M.Place(ms, |m.path|)
      {
        assert ms[k..][1..] == ms[k + 1..];
        k := k + 1;
      }
      r := ms[..k] + [m] + ms[k..];
    }

    method Resolve(path: Path) returns (r: Option<M.Target>)
      requires Valid()
      ensures r == M.Resolve(mounts, path)
    {
      var i := 0;
      assert mounts[0..] == mounts;
      while i < |mounts|
        invariant 0 <= i <= |mounts| && i + M.FirstMatch(mounts[i..], path) == M.FirstMatch(mounts, path)
      {
        var m := mounts[i];
        if path == m.path { return Some(M.Target(m.fs, [SLASH])); }
        if m.path == [SLASH] { return Some(M.Target(m.fs, path)); }
        if m.path <= path && path[|m.path|] == SLASH { return Some(M.Target(m.fs, path[|m.path|..])); }
        assert mounts[i..][1..] == mounts[i + 1..];
        i := i + 1;
      }
      r := None;
    }

    method Open(path: Path, flags: nat, now: u64) returns (r: Option<nat>)
      requires Valid()
      modifies this`trees, this`fds
      ensures Valid() && M.Open(sys, old(Value()), path, flags, now) == M.Opened(Value(), r)
    {
      M.ExecKeeps(sys, Value(), M.OpenCall(path, flags), now);
      var writable := flags % 2 == 1;
      var readable := flags / 2 % 2 == 1 || flags == 0;
      if !M.Exists(sys, M.Vfs(mounts, trees, fds), path) {
        if !writable { return None; }
        var t := M.Touch(sys, M.Vfs(mounts, trees, fds), path, now);
        trees := t.vfs.trees;
        if !t.ok { return None; }
      }
      var cursor := M.Fd(path, 0, true, readable, writable, false);
      var i := M.RESERVED;
      while i < |fds|
        invariant M.RESERVED <= i <= |fds| && M.FirstFree(fds, i) == M.FirstFree(fds, M.RESERVED)
      {
        if !fds[i].active {
          fds := fds[i := cursor];
          return Some(i);
        }
        i := i + 1;
      }
      if |fds| < M.MAX_FDS {
        fds := fds + [cursor];
        return Some(|fds| - 1);
      }
      r := None;
    }

    method Read(fd: nat, n: nat) returns (data: Option<seq<byte>>)
      requires Valid()
      modifies this`fds
      ensures Valid() && M.Read(sys, old(Value()), fd, n) == M.Fetched(Value(), data)
    {
      M.ExecKeeps(sys, Value(), M.ReadCall(fd, n), 0);
      if fd >= |fds| || !fds[fd].active || !fds[fd].readable { return None; }
      var content := M.Contents(sys, M.Vfs(mounts, trees, fds), fds[fd].path);
      if content.None? { return None; }
      var got := M.Slice(content.value, fds[fd].offset, n);
      fds := fds[fd := fds[fd].(offset := fds[fd].offset + |got|)];
      data := Some(got);
    }

    method Write(fd: nat, data: seq<byte>, now: u64) returns (ok: bool)
      requires Valid()
      modifies this`trees, this`fds
      ensures Valid() && M.Write(sys, old(Value()), fd, data, now) == M.Changed(Value(), ok)
    {
      M.ExecKeeps(sys, Value(), M.WriteCall(fd, data), now);
      if fd == 1 || fd == 2 { return true; }
      if fd >= |fds| || !fds[fd].active || !fds[fd].writable { return false; }
      var f := fds[fd];
      var r := M.WriteAt(sys, M.Vfs(mounts, trees, fds), f.path, f.offset, data, now);
      trees := r.vfs.trees;
      if !r.ok { return false; }
      fds := fds[fd := f.(offset := f.offset + |data|, dirty := true)];
      ok := true;
    }

    method Seek(fd: nat, offset: int, whence: int) returns (pos: Option<nat>)
      requires Valid()
      modifies this`fds
      ensures Valid() && M.Seek(sys, old(Value()), fd, offset, whence) == M.Sought(Value(), pos)
    {
      M.ExecKeeps(sys, Value(), M.SeekCall(fd, offset, whence), 0);
      if fd < M.RESERVED || fd >= |fds| || !fds[fd].active { return None; }
      var content := M.Contents(sys, M.Vfs(mounts, trees, fds), fds[fd].path);
      var size := if content.Some? then |content.value| else 0;
      if !(0 <= whence <= 2) { return None; }
      var p: int := offset + (if whence == 0 then 0 else if whence == 1 then fds[fd].offset else size);
      if p < 0 { return None; }
      fds := fds[fd := fds[fd].(offset := p)];
      pos := Some(p);
    }

    method Close(fd: nat) returns (ok: bool)
      requires Valid()
      modifies this`fds
      ensures Valid() && M.Close(old(Value()), fd) == M.Changed(Value(), ok)
    {
      M.ExecKeeps(sys, Value(), M.CloseCall(fd), 0);
      if fd < M.RESERVED || fd >= |fds| || !fds[fd].active { return false; }
      fds := fds[fd := M.Closed(fds[fd])];
      ok := true;
    }

    method CloseAll()
      requires Valid()
      modifies this`fds
      ensures Valid() && Value() == M.CloseAll(old(Value()))
    {
      M.ExecKeeps(sys, Value(), M.CloseAllCall, 0);
      ghost var goal := M.CloseAll(Value()).fds;
      var i := M.RESERVED;
      while i < |fds|
        invariant M.RESERVED <= i <= |fds| == |goal|
        invariant forall k :: 0 <= k < |fds| ==> fds[k] == if k < i then goal[k] else old(fds)[k]
      {
        if fds[i].active { fds := fds[i := M.Closed(fds[i])]; }
        i := i + 1;
      }
      assert fds == goal;
    }
  }
}
