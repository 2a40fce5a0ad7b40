/** The keys of RamFS are strings: every operation with string arguments keeps them so. */
module RamFsNames {
  import opened Bytes
  import opened Paths
  import opened RamFsModel
  import Utf8

  /** Paths are strings. */
  ghost predicate Strings(t: Tree) { forall k :: k in t ==> Utf8.Valid(k) }

  /** The arguments of an operation are strings. */
  ghost predicate StringArgs(op: Op) { Utf8.Valid(op.path) && (op.RenameOp? ==> Utf8.Valid(op.to)) }

  lemma {:induction false} StripTailString(p: Path)
    requires Utf8.Valid(p)
    ensures Utf8.Valid(StripTail(p))
  {
    if |p| > 1 && p[|p| - 1] == SLASH {
      Utf8.Cut(p, |p| - 1);
      StripTailString(p[..|p| - 1]);
    }
  }

  lemma RootString()
    ensures Utf8.Valid(ROOT)
  {
    assert Utf8.CharAt(ROOT, 0) == 1;
  }

  lemma NormalizeString(p: Path)
    requires Utf8.Valid(p)
    ensures Utf8.Valid(Normalize(p))
  {
    RootString();
    Utf8.Joined(ROOT, p);
    StripTailString(ROOT + p);
    StripTailString(p);
  }

  lemma ParentString(p: Path)
    requires Utf8.Valid(p)
    ensures Utf8.Valid(Parent(p))
  {
    RootString();
    if Parent(p) != ROOT {
      Utf8.Cut(p, |Parent(p)|);
      assert p[..|Parent(p)|] == Parent(p);
    }
  }

  lemma {:induction false} MkdirStrings(t: Tree, path: Path)
    requires Strings(t) && Utf8.Valid(path)
    ensures Strings(MkdirAll(t, path))
    decreases |path|
  {
    if path != ROOT && path != [] {
      ParentString(path);
      if Parent(path) != ROOT && Parent(path) !in t { MkdirStrings(t, Parent(path)); }
    }
  }

  lemma EnsureParentStrings(t: Tree, path: Path)
    requires Strings(t) && Utf8.Valid(path)
    ensures Strings(EnsureParent(t, path))
  {
    ParentString(path);
    MkdirStrings(t, Parent(path));
  }

  lemma RenameStrings(t: Tree, from: Path, to: Path)
    requires Strings(t) && Utf8.Valid(to)
    ensures Strings(MovedNodes(t, from, to))
  {
    forall k | k in MovedNodes(t, from, to) ensures Utf8.Valid(k) {
      MovedNodesAt(t, from, to, k);
      var s := k[|to|..];
      var k0 := from + s;
      assert k0[|from|..] == s;
      Utf8.Cut(k0, |from|);
      Utf8.Joined(to, s);
      assert to + s == k;
    }
  }

  lemma ApplyStrings(t: Tree, op: Op)
    requires Strings(t) && StringArgs(op)
    ensures Strings(Apply(t, op).tree)
  {
    var p := Normalize(op.path);
    NormalizeString(op.path);
    EnsureParentStrings(t, p);
    MkdirStrings(t, p);
    if op.RenameOp? {
      var to := Normalize(op.to);
      NormalizeString(op.to);
      EnsureParentStrings(t - Moved(t, p), to);
      RenameStrings(t, p, to);
    }
  }
}
