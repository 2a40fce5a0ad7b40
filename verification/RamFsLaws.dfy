/** What every RamFS operation leaves in the tree, byte for byte and key for key, for every tree and every argument. */
module RamFsLaws {
  import opened Bytes
  import opened Paths
  import opened RamFsModel
  import R = RamFs

  /** Only `p` is new or changed, apart from new directories above it. */
  ghost predicate Around(t: Tree, r: Tree, p: Path) {
    && (forall k :: k in t && k != p ==> k in r && r[k] == t[k])
    && (forall k :: k in r && k !in t && k != p ==> r[k] == Dir && IsAncestor(k, p))
  }

  /** A successful change: the tree is there, marked and stamped. */
  ghost predicate Stamped(s: R.State, r: R.Step, now: u64) {
    r.ok && r.state.ready && r.state.dirty && r.state.lastDirty == now
  }

  lemma {:induction false} AncestorsAdded(p: Path, a: Path, k: Path)
    requires k == a || IsAncestor(k, a)
    requires a == Parent(p) && p != ROOT && a != ROOT
    ensures IsAncestor(k, p)
  {
  }

  lemma EnsureAround(t: Tree, p: Path)
    ensures Around(t, EnsureParent(t, p), p)
  {
    var par := Parent(p);
    MkdirAllAdds(t, par);
    if par != ROOT && par !in t {
      forall k | k in EnsureParent(t, p) && k !in t ensures EnsureParent(t, p)[k] == Dir && IsAncestor(k, p) {
        AncestorsAdded(p, par, k);
      }
    }
  }

  lemma PutAround(t: Tree, p: Path, n: Node)
    ensures Around(t, EnsureParent(t, p)[p := n], p)
  {
    EnsureAround(t, p);
  }

  /** `write_file`: the path holds a file with exactly the data. */
  lemma WriteStores(s: R.State, path: Path, data: seq<byte>, now: u64)
    requires s.ready
    ensures var r := R.Run(s, WriteOp(path, data), now); var p := Normalize(path);
            && Stamped(s, r, now) && Around(s.nodes, r.state.nodes, p)
            && p in r.state.nodes && r.state.nodes[p] == File(data)
  {
    PutAround(s.nodes, Normalize(path), File(data));
  }

  /** The bytes of a file, or none. */
  function Old(t: Tree, p: Path): seq<byte> { if p in t && t[p].File? then t[p].data else [] }

  /** `append_file`: the old bytes, then the data. */
  lemma AppendStores(s: R.State, path: Path, data: seq<byte>, now: u64)
    requires s.ready
    ensures var r := R.Run(s, AppendOp(path, data), now); var p := Normalize(path); var was := Old(s.nodes, p);
            && Stamped(s, r, now) && Around(s.nodes, r.state.nodes, p)
            && p in r.state.nodes && r.state.nodes[p].File?
            && |r.state.nodes[p].data| == |was| + |data|
            && r.state.nodes[p].data[..|was|] == was && r.state.nodes[p].data[|was|..] == data
  {
    PutAround(s.nodes, Normalize(path), File(data));
  }

  /** `write_at`: refused on a directory; else the data at its offset, zeros in a hole, all other bytes kept. */
  lemma WriteAtStores(s: R.State, path: Path, offset: nat, data: seq<byte>, now: u64)
    requires s.ready
    ensures var r := R.Run(s, WriteAtOp(path, offset, data), now); var p := Normalize(path);
            if p in s.nodes && s.nodes[p] == Dir then r == R.Step(s, false)
            else && Stamped(s, r, now) && Around(s.nodes, r.state.nodes, p)
                 && p in r.state.nodes && r.state.nodes[p].File? && Laid(r.state.nodes[p].data, Old(s.nodes, p), offset, data)
  {
    var p := Normalize(path);
    OverlayLaid(Old(s.nodes, p), offset, data);
    PutAround(s.nodes, p, File(Overlay([], offset, data)));
  }

  /** `r` is `was` with `data` laid over it at `offset`. */
  ghost predicate Laid(r: seq<byte>, was: seq<byte>, offset: nat, data: seq<byte>) {
    && |r| == (if |was| < offset + |data| then offset + |data| else |was|)
    && forall i :: 0 <= i < |r| ==>
         r[i] == if offset <= i < offset + |data| then data[i - offset] else if i < |was| then was[i] else 0
  }

  lemma OverlayLaid(was: seq<byte>, offset: nat, data: seq<byte>)
    ensures Laid(Overlay(was, offset, data), was, offset, data)
  {
    var r := Overlay(was, offset, data);
    forall i | offset <= i < offset + |data| ensures r[i] == data[i - offset] {
      assert r[offset..offset + |data|][i - offset] == data[i - offset];
    }
  }

  /** `touch`: an empty file where nothing was; what exists keeps its node. */
  lemma TouchStores(s: R.State, path: Path, now: u64)
    requires s.ready
    ensures var r := R.Run(s, TouchOp(path), now); var p := Normalize(path);
            && Stamped(s, r, now) && Around(s.nodes, r.state.nodes, p)
            && p in r.state.nodes && r.state.nodes[p] == if p in s.nodes then s.nodes[p] else File([])
  {
    PutAround(s.nodes, Normalize(path), File([]));
  }

  /** `mkdir`: a directory where nothing was; what exists keeps its node. */
  lemma MkdirStores(s: R.State, path: Path, now: u64)
    requires s.ready
    ensures var r := R.Run(s, MkdirOp(path), now); var p := Normalize(path);
            && Stamped(s, r, now) && Around(s.nodes, r.state.nodes, p)
            && (p != ROOT ==> p in r.state.nodes && r.state.nodes[p] == if p in s.nodes then s.nodes[p] else Dir)
  {
    MkdirAllAdds(s.nodes, Normalize(path));
  }

  /** `remove`: succeeds if and only if the path is in the tree, is not the root, and is a file or has nothing below it;
      then exactly its key goes, and else nothing. */
  lemma RemoveExact(s: R.State, path: Path, now: u64)
    requires s.ready
    ensures var r := R.Run(s, RemoveOp(path), now); var p := Normalize(path);
            && (r.ok <==> p in s.nodes && p != ROOT && (s.nodes[p].File? || forall k :: k in s.nodes ==> !(p + ROOT <= k)))
            && (r.ok ==> Stamped(s, r, now) && (forall k :: k in r.state.nodes <==> k in s.nodes && k != p)
                         && forall k :: k in r.state.nodes ==> r.state.nodes[k] == s.nodes[k])
            && (!r.ok ==> r.state == s)
  {
  }

  /** `rename` moves a subtree as `RenameMoves` says, and marks the tree without stamping it. */
  lemma RenameStores(s: R.State, from0: Path, to0: Path, now: u64, k: Path, tail: Path)
    requires s.ready && RenameScope(s.nodes, from0, to0)
    ensures var r := R.Run(s, RenameOp(from0, to0), now); var from, to := Normalize(from0), Normalize(to0);
            && r.ok && r.state.ready && r.state.dirty && r.state.lastDirty == s.lastDirty
            && (Tail(tail) && from + tail in s.nodes ==> to + tail in r.state.nodes && r.state.nodes[to + tail] == s.nodes[from + tail])
            && (k in s.nodes && !Under(k, from) && k != to ==> k in r.state.nodes && r.state.nodes[k] == s.nodes[k])
  {
    var o := Rename(s.nodes, from0, to0);
    RenameMoves(s.nodes, from0, to0, k, tail);
    RenameRuns(s, from0, to0, now, o);
  }

  lemma RenameRuns(s: R.State, from0: Path, to0: Path, now: u64, o: Outcome)
    requires s.ready && Normalize(from0) != Normalize(to0) && o == Rename(s.nodes, from0, to0) && o.ok
    ensures R.Run(s, RenameOp(from0, to0), now) == R.Step(s.(nodes := o.tree, dirty := true), true)
  {
  }

  /** Without a tree, every operation fails and changes nothing, but for a rename of a path to itself. */
  lemma NothingWithoutTree(s: R.State, op: Op, now: u64)
    requires !s.ready
    ensures R.Run(s, op, now).state == s
    ensures R.Run(s, op, now).ok <==> op.RenameOp? && Normalize(op.path) == Normalize(op.to)
  {
  }
}
