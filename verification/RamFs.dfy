/** RamFS in its own form: the global tree and its dirty marks, changed in place. */
module RamFs {
  import opened Bytes
  import opened Paths
  import M = RamFsModel

  type Path = M.Path
  type Node = M.Node
  type Tree = M.Tree

  /** The tree, whether it exists yet, the dirty flag and the tick of the latest marked change. */
  datatype State = State(ready: bool, nodes: Tree, dirty: bool, lastDirty: u64)

  datatype Step = Step(state: State, ok: bool)

  /** What an operation does to tree and marks: a successful change is marked and stamped with the
      current tick, except that a rename sets the flag alone. */
  function Run(s: State, op: M.Op, now: u64): Step {
    var idle := op.RenameOp? && M.Normalize(op.path) == M.Normalize(op.to);
    if idle then Step(s, true)
    else if !s.ready then Step(s, false) else
    var o := M.Apply(s.nodes, op);
    if !o.ok then Step(s, false)
    else if op.RenameOp? then Step(s.(nodes := o.tree, dirty := true), true)
    else Step(s.(nodes := o.tree, dirty := true, lastDirty := now), true)
  }

  /** An operation that leaves the tree unmarked has not changed it, and no operation takes a mark back. */
  lemma ChangesAreMarked(s: State, op: M.Op, now: u64)
    ensures var r := Run(s, op, now).state;
            (!r.dirty ==> r == s) && (s.dirty ==> r.dirty) && r.ready == s.ready
  {
  }

  // ---- The list of moves in a rename ----------------------------------------------------------------

  datatype Move = Move(path: Path, node: Node)

  /** A list of moves as the nodes it inserts. */
  ghost function Moves(ms: seq<Move>): Tree {
    if ms == [] then map[] else Moves(ms[..|ms| - 1])[ms[|ms| - 1].path := ms[|ms| - 1].node]
  }

  /** The nodes of the keys `done`, at their new places. */
  ghost function Taken(t: Tree, from: Path, to: Path, done: set<Path>): Tree {
    map k' | k' in (set k | k in done && |from| <= |k| :: M.Target(k, from, to)) && |to| <= |k'| && from + k'[|to|..] in t
           :: t[from + k'[|to|..]]
  }

  /** One more key taken, wherever it comes in the order. */
  lemma TakeOne(t: Tree, from: Path, to: Path, done: set<Path>, k: Path)
    requires k in t && from <= k && forall j :: j in done ==> from <= j
    ensures Taken(t, from, to, done + {k}) == Taken(t, from, to, done)[M.Target(k, from, to) := t[k]]
  {
    var k' := M.Target(k, from, to);
    assert k'[|to|..] == k[|from|..] && from + k[|from|..] == k;
    var l, r := Taken(t, from, to, done + {k}), Taken(t, from, to, done)[k' := t[k]];
    assert k in done + {k};
    forall j | j in l ensures j in r && r[j] == l[j] {
      var j0 :| j0 in done + {k} && |from| <= |j0| && j == M.Target(j0, from, to);
    }
    forall j | j in r ensures j in l && r[j] == l[j] {
      if j != k' {
        var j0 :| j0 in done && |from| <= |j0| && j == M.Target(j0, from, to);
        assert j0 in done + {k};
      }
    }
  }

  lemma TakenAll(t: Tree, from: Path, to: Path)
    ensures Taken(t, from, to, M.Moved(t, from)) == M.MovedNodes(t, from, to)
  {
  }

  /** A rename on its way: the keys `done` are out of the tree and in the list, `left` are still in. */
  ghost predicate Partly(t: Tree, from: Path, to: Path, nodes: Tree, ms: seq<Move>, done: set<Path>, left: set<Path>) {
    && nodes == t - done && done !! left && done + left == M.Moved(t, from)
    && Moves(ms) == Taken(t, from, to, done)
  }

  lemma PartlyStart(t: Tree, from: Path, to: Path)
    requires from in t
    ensures var left := set k | k in t - {from} && from + M.ROOT <= k;
            Partly(t, from, to, t - {from}, [Move(to, t[from])], {from}, left)
  {
    TakeOne(t, from, to, {}, from);
    assert {} + {from} == {from};
    assert M.Target(from, from, to) == to;
    var ms := [Move(to, t[from])];
    assert ms[..0] == [] && Taken(t, from, to, {}) == map[];
    assert {from} + (set k | k in t - {from} && from + M.ROOT <= k) == M.Moved(t, from);
  }

  lemma PartlyOn(t: Tree, from: Path, to: Path, nodes: Tree, ms: seq<Move>, done: set<Path>, left: set<Path>, k: Path)
    requires Partly(t, from, to, nodes, ms, done, left) && k in left
    ensures from <= k && k in nodes
    ensures Partly(t, from, to, nodes - {k}, ms + [Move(M.Target(k, from, to), nodes[k])], done + {k}, left - {k})
  {
    assert k in M.Moved(t, from);
    forall j | j in done ensures from <= j { assert j in M.Moved(t, from); }
    TakeOne(t, from, to, done, k);
    var ms1 := ms + [Move(M.Target(k, from, to), nodes[k])];
    assert ms1[..|ms|] == ms;
    assert t - done - {k} == t - (done + {k});
  }

  // ---- The file system --------------------------------------------------------------------------------

  class RamFs {
    var ready: bool
    var nodes: Tree
    var dirty: bool
    var lastDirty: u64

    ghost function Value(): State
      reads this
    {
      State(ready, nodes, dirty, lastDirty)
    }

    /** `mark_dirty` */
    method MarkDirty(now: u64)
      modifies this`dirty, this`lastDirty
      ensures dirty && lastDirty == now
    {
      dirty := true;
      lastDirty := now;
    }

    /** `mkdir_internal` */
    method MkdirInternal(path: Path)
      modifies this`nodes
      ensures nodes == M.MkdirAll(old(nodes), path)
      decreases |path|
    {
      if path == M.ROOT || path == [] { return; }
      EnsureParent(path);
      if path !in nodes { nodes := nodes[path := M.Dir]; }
    }

    method EnsureParent(path: Path)
      modifies this`nodes
      ensures nodes == M.EnsureParent(old(nodes), path)
      decreases |path|, 0
    {
      var par := M.Parent(path);
      if par != M.ROOT && par !in nodes { MkdirInternal(par); }
    }

    method WriteFile(path0: Path, data: seq<byte>, now: u64) returns (ok: bool)
      modifies this
      ensures Run(old(Value()), M.WriteOp(path0, data), now) == Step(Value(), ok)
    {
      if !ready { return false; }
      var path := M.Normalize(path0);
      EnsureParent(path);
      nodes := nodes[path := M.File(data)];
      MarkDirty(now);
      ok := true;
    }

    method AppendFile(path0: Path, data: seq<byte>, now: u64) returns (ok: bool)
      modifies this
      ensures Run(old(Value()), M.AppendOp(path0, data), now) == Step(Value(), ok)
    {
      if !ready { return false; }
      var path := M.Normalize(path0);
      if path in nodes && nodes[path].File? {
        nodes := nodes[path := M.File(nodes[path].data + data)];
      } else {
        EnsureParent(path);
        nodes := nodes[path := M.File(data)];
      }
      MarkDirty(now);
      ok := true;
    }

    method WriteAt(path0: Path, offset: nat, data: seq<byte>, now: u64) returns (ok: bool)
      modifies this
      ensures Run(old(Value()), M.WriteAtOp(path0, offset, data), now) == Step(Value(), ok)
    {
      if !ready { return false; }
      var path := M.Normalize(path0);
      if path in nodes {
        if nodes[path].Dir? { return false; }
        var existing := Overwrite(nodes[path].data, offset, data);
        nodes := nodes[path := M.File(existing)];
      } else {
        EnsureParent(path);
        var content := Overwrite([], offset, data);
        nodes := nodes[path := M.File(content)];
      }
      MarkDirty(now);
      ok := true;
    }

    /** Grow with zeros if need be, then copy. */
    static method Overwrite(existing: seq<byte>, offset: nat, data: seq<byte>) returns (r: seq<byte>)
      ensures r == Overlay(existing, offset, data)
    {
      r := existing;
      var end := offset + |data|;
      if |r| < end { r := r + Zeros(end - |r|); }
      r := Patch(r, offset, data);
    }

    method Touch(path0: Path, now: u64) returns (ok: bool)
      modifies this
      ensures Run(old(Value()), M.TouchOp(path0), now) == Step(Value(), ok)
    {
      if !ready { return false; }
      var path := M.Normalize(path0);
      if path !in nodes {
        EnsureParent(path);
        nodes := nodes[path := M.File([])];
      }
      MarkDirty(now);
      ok := true;
    }

    method Mkdir(path0: Path, now: u64) returns (ok: bool)
      modifies this
      ensures Run(old(Value()), M.MkdirOp(path0), now) == Step(Value(), ok)
    {
      if !ready { return false; }
      MkdirInternal(M.Normalize(path0));
      MarkDirty(now);
      ok := true;
    }

    method Remove(path0: Path, now: u64) returns (ok: bool)
      modifies this
      ensures Run(old(Value()), M.RemoveOp(path0), now) == Step(Value(), ok)
    {
      var path := M.Normalize(path0);
      if path == M.ROOT || !ready { return false; }
      if path in nodes && nodes[path].Dir? {
        var children := set k | k in nodes && path + M.ROOT <= k;
        if children != {} {
          var k :| k in children;
          return false;
        }
        forall k | k in nodes ensures !(path + M.ROOT <= k) {
          assert k !in children;
        }
      }
      if path !in nodes { return false; }
      nodes := nodes - {path};
      MarkDirty(now);
      ok := true;
    }

    /** Take the source and everything below it out of the tree, noting where each node goes. */
    method TakeSubtree(from: Path, to: Path) returns (moves: seq<Move>)
      requires from in nodes
      modifies this`nodes
      ensures nodes == old(nodes) - M.Moved(old(nodes), from)
      ensures Moves(moves) == M.MovedNodes(old(nodes), from, to)
    {
      ghost var t, done := nodes, {from};
      PartlyStart(t, from, to);
      moves := [Move(to, nodes[from])];
      nodes := nodes - {from};
      var children := set k | k in nodes && from + M.ROOT <= k;
      while children != {}
        invariant Partly(t, from, to, nodes, moves, done, children)
        decreases |children|
      {
        var k :| k in children;
        PartlyOn(t, from, to, nodes, moves, done, children, k);
        moves := moves + [Move(M.Target(k, from, to), nodes[k])];
        nodes := nodes - {k};
        children := children - {k};
        done := done + {k};
      }
      assert done == M.Moved(t, from);
      TakenAll(t, from, to);
    }

    method PutAll(moves: seq<Move>)
      modifies this`nodes
      ensures nodes == old(nodes) + Moves(moves)
    {
      for i := 0 to |moves|
        invariant nodes == old(nodes) + Moves(moves[..i])
      {
        assert moves[..i + 1][..i] == moves[..i];
        nodes := nodes[moves[i].path := moves[i].node];
      }
      assert moves[..|moves|] == moves;
    }

    method Rename(from0: Path, to0: Path, now: u64) returns (ok: bool)
      modifies this
      ensures Run(old(Value()), M.RenameOp(from0, to0), now) == Step(Value(), ok)
    {
      var from, to := M.Normalize(from0), M.Normalize(to0);
      if from == to { return true; }
      if !ready { return false; }
      if from !in nodes { return false; }
      var moves := TakeSubtree(from, to);
      EnsureParent(to);
      PutAll(moves);
      dirty := true;
      ok := true;
    }

    /** `restore_from_tree` */
    method Restore(tree: Tree)
      modifies this
      ensures Value() == old(Value()).(ready := true, nodes := tree)
    {
      nodes := tree;
      ready := true;
    }
  }
}
