/** RamFS as a value: one flat map from absolute paths to nodes, what every operation
    does to it, and that it stays a tree. */
module RamFsModel {
  import opened Bytes
  import opened Paths

  type Path = seq<byte>

  datatype Node = File(data: seq<byte>) | Dir

  type Tree = map<Path, Node>

  const ROOT: Path := [SLASH]

  datatype Outcome = Outcome(tree: Tree, ok: bool)

  // ---- Paths ---------------------------------------------------------------------------

  function StripTail(p: Path): (r: Path)
    ensures r <= p && (|p| > 0 ==> |r| > 0)
    ensures |r| <= 1 || r[|r| - 1] != SLASH
  {
    if |p| > 1 && p[|p| - 1] == SLASH then StripTail(p[..|p| - 1]) else p
  }

  /** `normalize`: a leading slash, no trailing one. */
  function Normalize(path: Path): (r: Path)
    ensures |r| > 0 && r[0] == SLASH && (r == ROOT || r[|r| - 1] != SLASH)
  {
    if path == [] || path == ROOT then ROOT
    else if path[0] != SLASH then StripTail(ROOT + path)
    else StripTail(path)
  }

  /** `full` is `q` with nothing but slashes behind it. */
  ghost predicate Trails(full: Path, q: Path) { q <= full && forall i :: |q| <= i < |full| ==> full[i] == SLASH }

  lemma {:induction false} StripTrails(p: Path)
    ensures Trails(p, StripTail(p))
  {
    if |p| > 1 && p[|p| - 1] == SLASH { StripTrails(p[..|p| - 1]); }
  }

  /** The normalized path is the one path that neither ends in a slash (unless it is the root) nor differs from the given
      one, with a slash put before it if it has none, by more than trailing slashes. */
  lemma NormalizeExact(path: Path, q: Path)
    requires |q| > 0 && (q == ROOT || q[|q| - 1] != SLASH)
    ensures var full := if path == [] then ROOT else if path[0] == SLASH then path else ROOT + path;
            Trails(full, q) <==> q == Normalize(path)
  {
    var full := if path == [] then ROOT else if path[0] == SLASH then path else ROOT + path;
    var r := Normalize(path);
    StripTrails(full);
    if Trails(full, q) {
      if |q| <= |r| { OneTrail(full, q, r); } else { OneTrail(full, r, q); }
    }
  }

  lemma OneTrail(full: Path, q: Path, r: Path)
    requires Trails(full, q) && Trails(full, r) && 0 < |q| <= |r| && (r == ROOT || r[|r| - 1] != SLASH)
    ensures q == r
  {
    assert full[|r| - 1] == r[|r| - 1];
  }

  /** `parent` */
  function Parent(path: Path): (r: Path)
    ensures |r| > 0
    ensures r == ROOT || (r < path && |r| == LastSlash(path) && path[|r|] == SLASH)
  {
    if path == ROOT then ROOT else
    var pos := LastSlash(path);
    if pos > 0 then path[..pos] else ROOT
  }

  /** Keys the tree may hold. */
  predicate Absolute(p: Path) { |p| > 0 && p[0] == SLASH }

  // ---- Operations -----------------------------------------------------------------------

  /** `mkdir_internal`: the directory and all missing parents. */
  function MkdirAll(t: Tree, path: Path): (r: Tree)
    decreases |path|
  {
    if path == ROOT || path == [] then t else
    var par := Parent(path);
    var t1 := if par != ROOT && par !in t then MkdirAll(t, par) else t;
    if path in t1 then t1 else t1[path := Dir]
  }

  /** Auto-creation of the parent directories of a target. */
  function EnsureParent(t: Tree, path: Path): Tree {
    var par := Parent(path);
    if par != ROOT && par !in t then MkdirAll(t, par) else t
  }

  function WriteFile(t: Tree, path: Path, data: seq<byte>): Outcome {
    var p := Normalize(path);
    Outcome(EnsureParent(t, p)[p := File(data)], true)
  }

  function AppendFile(t: Tree, path: Path, data: seq<byte>): Outcome {
    var p := Normalize(path);
    if p in t && t[p].File? then Outcome(t[p := File(t[p].data + data)], true)
    else Outcome(EnsureParent(t, p)[p := File(data)], true)
  }

  function WriteAt(t: Tree, path: Path, offset: nat, data: seq<byte>): Outcome {
    var p := Normalize(path);
    if p in t then
      if t[p].Dir? then Outcome(t, false) else Outcome(t[p := File(Overlay(t[p].data, offset, data))], true)
    else Outcome(EnsureParent(t, p)[p := File(Overlay([], offset, data))], true)
  }

  function Touch(t: Tree, path: Path): Outcome {
    var p := Normalize(path);
    if p in t then Outcome(t, true) else Outcome(EnsureParent(t, p)[p := File([])], true)
  }

  function Mkdir(t: Tree, path: Path): Outcome { Outcome(MkdirAll(t, Normalize(path)), true) }

  /** `k` is `from` itself or lies below it. */
  predicate Under(k: Path, from: Path) { k == from || from + ROOT <= k }

  function Remove(t: Tree, path: Path): Outcome {
    var p := Normalize(path);
    if p == ROOT || p !in t then Outcome(t, false)
    else if t[p].Dir? && exists k :: k in t && p + ROOT <= k then Outcome(t, false)
    else Outcome(t - {p}, true)
  }

  /** The keys a rename moves. */
  function Moved(t: Tree, from: Path): set<Path> { set k | k in t && Under(k, from) }

  /** Where key `k` below `from` goes. */
  function Target(k: Path, from: Path, to: Path): Path
    requires |from| <= |k|
  {
    to + k[|from|..]
  }

  /** The moved nodes at their new keys. */
  function MovedNodes(t: Tree, from: Path, to: Path): (r: Tree)
  {
    map k' | k' in (set k | k in Moved(t, from) :: Target(k, from, to)) && from + k'[|to|..] in t :: t[from + k'[|to|..]]
  }

  /** `rename` */
  function Rename(t: Tree, from0: Path, to0: Path): Outcome {
    var from, to := Normalize(from0), Normalize(to0);
    if from == to then Outcome(t, true)
    else if from !in t then Outcome(t, false)
    else Outcome(EnsureParent(t - Moved(t, from), to) + MovedNodes(t, from, to), true)
  }

  // ---- The shape of the tree ----------------------------------------------------------------

  /** The parent of `k` is the root or a directory of the tree. */
  ghost predicate HasParent(t: Tree, k: Path) {
    k == ROOT || Parent(k) == ROOT || (Parent(k) in t && t[Parent(k)].Dir?)
  }

  ghost predicate IsTree(t: Tree) {
    && ROOT in t && t[ROOT].Dir?
    && forall k :: k in t ==> Absolute(k) && HasParent(t, k)
  }

  /** `a` is a proper ancestor of `p`, other than the root. */
  ghost predicate IsAncestor(a: Path, p: Path)
    decreases |p|
  {
    p != ROOT && Parent(p) != ROOT && (a == Parent(p) || IsAncestor(a, Parent(p)))
  }

  /** No proper ancestor of `p` is a file. */
  ghost predicate NoFileAbove(t: Tree, p: Path) {
    forall a: Path :: IsAncestor(a, p) && a in t ==> t[a].Dir?
  }

  lemma {:induction false} AncestorIsPrefix(a: Path, p: Path)
    requires IsAncestor(a, p)
    ensures a != ROOT && a + ROOT <= p && (Absolute(p) ==> Absolute(a))
    decreases |p|
  {
    var par := Parent(p);
    assert par + ROOT <= p by { assert p[..|par| + 1] == par + ROOT; }
    if a != par {
      AncestorIsPrefix(a, par);
      assert (a + ROOT) <= par;
    }
  }

  lemma ParentAbsolute(p: Path)
    requires Absolute(p)
    ensures Absolute(Parent(p))
  {
  }

  /** What `mkdir_internal` adds: directories only, at the path and at ancestors of it. */
  ghost predicate AddsDirs(t: Tree, r: Tree, path: Path) {
    && (forall k :: k in t ==> k in r && r[k] == t[k])
    && (forall k :: k in r && k !in t ==> r[k] == Dir && (k == path || IsAncestor(k, path)))
  }

  lemma {:induction false} MkdirAllAdds(t: Tree, path: Path)
    ensures AddsDirs(t, MkdirAll(t, path), path)
    ensures path == ROOT || path == [] || path in MkdirAll(t, path)
    decreases |path|
  {
    if path != ROOT && path != [] {
      var par := Parent(path);
      if par != ROOT && par !in t { MkdirAllAdds(t, par); }
    }
  }

  /** Making a directory with its parents keeps the tree, unless it goes through a file. */
  lemma {:induction false} MkdirAllIsTree(t: Tree, path: Path)
    requires IsTree(t) && Absolute(path) && NoFileAbove(t, path)
    ensures IsTree(MkdirAll(t, path))
    decreases |path|
  {
    if path != ROOT {
      var par := Parent(path);
      MkdirAllAdds(t, path);
      if par != ROOT {
        assert IsAncestor(par, path);
        if par !in t {
          ParentAbsolute(path);
          AbovePar(t, path);
          MkdirAllIsTree(t, par);
          MkdirAllAdds(t, par);
        }
      }
    }
  }

  lemma AbovePar(t: Tree, path: Path)
    requires NoFileAbove(t, path) && path != ROOT && Parent(path) != ROOT
    ensures NoFileAbove(t, Parent(path))
  {
    forall a: Path | IsAncestor(a, Parent(path)) && a in t ensures t[a].Dir? {
      assert IsAncestor(a, path);
    }
  }

  /** The parent of a target exists afterwards, and nothing but missing ancestors is added. */
  lemma EnsureParentSpec(t: Tree, path: Path)
    requires IsTree(t) && Absolute(path) && path != ROOT && NoFileAbove(t, path)
    ensures var r := EnsureParent(t, path);
            && IsTree(r) && HasParent(r, path)
            && (forall k :: k in t ==> k in r && r[k] == t[k])
            && (forall k :: k in r && k !in t ==> r[k] == Dir && IsAncestor(k, path))
  {
    var par := Parent(path);
    if par != ROOT {
      assert IsAncestor(par, path);
      if par !in t {
        ParentAbsolute(path);
        AbovePar(t, path);
        MkdirAllIsTree(t, par);
        MkdirAllAdds(t, par);
      }
    }
  }

  /** Putting a file at a path that is no directory, below directories only. */
  lemma PutFileIsTree(t: Tree, path: Path, data: seq<byte>)
    requires IsTree(t) && Absolute(path) && path != ROOT && HasParent(t, path)
    requires path in t ==> t[path].File?
    ensures IsTree(t[path := File(data)])
  {
    var r := t[path := File(data)];
    forall k | k in r ensures Absolute(k) && HasParent(r, k) {
      if k != path { assert HasParent(t, k); }
    }
  }

  lemma CreateIsTree(t: Tree, path: Path, data: seq<byte>)
    requires IsTree(t) && Absolute(path) && path != ROOT && NoFileAbove(t, path)
    requires path in t ==> t[path].File?
    ensures IsTree(EnsureParent(t, path)[path := File(data)])
  {
    EnsureParentSpec(t, path);
    var r := EnsureParent(t, path);
    if path in r && path !in t { AncestorIsPrefix(path, path); }
    PutFileIsTree(r, path, data);
  }

  /** In a tree only directories have something below them. */
  lemma {:induction false} BelowIsDir(t: Tree, d: Path, k: Path)
    requires IsTree(t) && k in t && d + ROOT <= k && |d| > 1
    ensures d in t && t[d].Dir?
    decreases |k|
  {
    var pos := LastSlash(k);
    assert k[|d|] == SLASH;
    assert pos >= |d|;
    assert Parent(k) == k[..pos];
    assert HasParent(t, k);
    if pos == |d| {
      assert k[..pos] == d;
    } else {
      assert d + ROOT <= k[..pos];
      BelowIsDir(t, d, k[..pos]);
    }
  }

  lemma BelowParent(k: Path)
    requires k != ROOT && Parent(k) != ROOT
    ensures Parent(k) + ROOT <= k
  {
    assert k[..|Parent(k)| + 1] == Parent(k) + ROOT;
  }

  /** Dropping a node that has nothing below it. */
  lemma DropLeafIsTree(t: Tree, p: Path)
    requires IsTree(t) && p != ROOT && forall k :: k in t ==> !(p + ROOT <= k)
    ensures IsTree(t - {p})
  {
    var r := t - {p};
    forall k | k in r ensures Absolute(k) && HasParent(r, k) {
      assert HasParent(t, k);
      if k != ROOT && Parent(k) != ROOT { BelowParent(k); }
    }
  }

  lemma RemoveIsTree(t: Tree, path: Path)
    requires IsTree(t)
    ensures IsTree(Remove(t, path).tree)
  {
    var p := Normalize(path);
    if Remove(t, path).ok {
      forall k | k in t ensures !(p + ROOT <= k) {
        if p + ROOT <= k { BelowIsDir(t, p, k); }
      }
      DropLeafIsTree(t, p);
    }
  }

  // ---- rename -----------------------------------------------------------------------------------

  /** `s` can follow a path: nothing, or a slash and more. */
  predicate Tail(s: Path) { s == [] || s[0] == SLASH }

  lemma UnderIsTail(k: Path, from: Path)
    ensures Under(k, from) <==> from <= k && Tail(k[|from|..])
  {
    if Under(k, from) && k != from { assert k[|from|] == (from + ROOT)[|from|]; }
    if from <= k && k != from && k[|from|] == SLASH { assert k[..|from| + 1] == from + ROOT; }
  }

  lemma TailIsUnder(from: Path, s: Path)
    requires Tail(s)
    ensures Under(from + s, from)
  {
    UnderIsTail(from + s, from);
    assert (from + s)[|from|..] == s;
  }

  /** What `MovedNodes` holds. */
  lemma MovedNodesAt(t: Tree, from: Path, to: Path, k: Path)
    ensures k in MovedNodes(t, from, to) <==> to <= k && Tail(k[|to|..]) && from + k[|to|..] in t
    ensures k in MovedNodes(t, from, to) ==> MovedNodes(t, from, to)[k] == t[from + k[|to|..]]
  {
    if k in MovedNodes(t, from, to) {
      var k0 :| k0 in Moved(t, from) && k == Target(k0, from, to);
      UnderIsTail(k0, from);
      assert k[|to|..] == k0[|from|..];
      assert k0 == from + k0[|from|..];
    }
    if to <= k && Tail(k[|to|..]) && from + k[|to|..] in t {
      var s := k[|to|..];
      TailIsUnder(from, s);
      assert from + s in Moved(t, from);
      assert (from + s)[|from|..] == s;
      assert Target(from + s, from, to) == k;
    }
  }

  /** Taking a whole subtree away leaves a tree. */
  lemma DropSubtreeIsTree(t: Tree, from: Path)
    requires IsTree(t) && |from| > 1
    ensures IsTree(t - Moved(t, from))
  {
    var r := t - Moved(t, from);
    assert !Under(ROOT, from);
    forall k | k in r ensures Absolute(k) && HasParent(r, k) {
      assert HasParent(t, k);
      if k != ROOT && Parent(k) != ROOT {
        BelowParent(k);
      }
    }
  }

  /** A rename of something other than the root to a place that is no existing directory and
      has no file above it. */
  ghost predicate RenameScope(t: Tree, from0: Path, to0: Path) {
    var from, to := Normalize(from0), Normalize(to0);
    IsTree(t) && from in t && from != ROOT && from != to && (to in t ==> t[to].File?) && NoFileAbove(t, to)
  }

  /** Rename moves a subtree exactly. Every key below the source turns up below the destination with its node;
      every other key keeps its node, but for a file overwritten at the destination; and the only new keys are
      directories on the way to the destination. */
  lemma RenameMoves(t: Tree, from0: Path, to0: Path, k: Path, s: Path)
    requires RenameScope(t, from0, to0)
    ensures var r := Rename(t, from0, to0); var from, to := Normalize(from0), Normalize(to0);
            && r.ok
            && (Tail(s) && from + s in t ==> to + s in r.tree && r.tree[to + s] == t[from + s])
            && (k in t && !Under(k, from) && k != to ==> k in r.tree && r.tree[k] == t[k])
            && (k in r.tree ==>
                  || (to <= k && Tail(k[|to|..]) && from + k[|to|..] in t)
                  || (k in t && !Under(k, from))
                  || (r.tree[k] == Dir && IsAncestor(k, to)))
  {
    var from, to := Normalize(from0), Normalize(to0);
    var base := t - Moved(t, from);
    DropSubtreeIsTree(t, from);
    assert NoFileAbove(base, to);
    EnsureParentSpec(base, to);
    MovedNodesAt(t, from, to, k);
    if Tail(s) {
      MovedNodesAt(t, from, to, to + s);
      assert (to + s)[|to|..] == s;
    }
    if k in t && !Under(k, from) && k != to && k in MovedNodes(t, from, to) {
      UnderIsTail(k, to);
      BelowIsDir(t, to, k);
    }
  }

  /** The last slash of a path with a tail is in the tail. */
  lemma ParentOfTail(p: Path, s: Path)
    requires |p| > 1 && Tail(s) && s != []
    ensures var i := LastSlash(s); 0 <= i && Parent(p + s) == p + s[..i] && Tail(s[..i])
  {
    var i := LastSlash(s);
    var k := p + s;
    assert s[0] == SLASH;
    assert LastSlash(k) == |p| + i by {
      assert k[|p| + i] == SLASH;
      forall j | |p| + i < j < |k| ensures k[j] != SLASH { assert k[j] == s[j - |p|]; }
    }
    assert k[..|p| + i] == p + s[..i];
  }

  lemma MovedHasParent(t: Tree, from: Path, to: Path, r: Tree, s: Path)
    requires IsTree(t) && |from| > 1 && |to| > 1 && Tail(s) && s != [] && from + s in t
    requires forall s: Path :: Tail(s) && from + s in t ==> to + s in r && r[to + s] == t[from + s]
    ensures HasParent(r, to + s)
  {
    ParentOfTail(from, s);
    ParentOfTail(to, s);
    var i := LastSlash(s);
    assert HasParent(t, from + s);
    assert |from + s[..i]| > 1;
  }

  /** The tree between taking the subtree away and putting it back. */
  ghost function Between(t: Tree, from: Path, to: Path): Tree { EnsureParent(t - Moved(t, from), to) }

  lemma BetweenSpec(t: Tree, from0: Path, to0: Path)
    requires RenameScope(t, from0, to0)
    ensures var from, to := Normalize(from0), Normalize(to0); var b := Between(t, from, to);
            && IsTree(b) && HasParent(b, to) && |from| > 1 && |to| > 1
            && (forall k :: k in b ==> k in t || IsAncestor(k, to))
            && Rename(t, from0, to0).tree == b + MovedNodes(t, from, to)
  {
    var from, to := Normalize(from0), Normalize(to0);
    var base := t - Moved(t, from);
    DropSubtreeIsTree(t, from);
    assert NoFileAbove(base, to);
    EnsureParentSpec(base, to);
  }

  lemma AllMoved(t: Tree, from0: Path, to0: Path)
    requires RenameScope(t, from0, to0)
    ensures var from, to := Normalize(from0), Normalize(to0); var r := Rename(t, from0, to0).tree;
            forall s: Path :: Tail(s) && from + s in t ==> to + s in r && r[to + s] == t[from + s]
  {
    var from, to := Normalize(from0), Normalize(to0);
    var r := Rename(t, from0, to0).tree;
    forall s: Path | Tail(s) && from + s in t ensures to + s in r && r[to + s] == t[from + s] {
      RenameMoves(t, from0, to0, ROOT, s);
    }
  }

  lemma RenamedMoved(t: Tree, from0: Path, to0: Path, s: Path)
    requires RenameScope(t, from0, to0) && Tail(s) && Normalize(from0) + s in t
    ensures HasParent(Rename(t, from0, to0).tree, Normalize(to0) + s)
  {
    var from, to := Normalize(from0), Normalize(to0);
    var r := Rename(t, from0, to0).tree;
    if s == [] {
      assert to + s == to;
      BetweenSpec(t, from0, to0);
      ParentKept(t, from, to, Between(t, from, to), r, to);
    } else {
      AllMoved(t, from0, to0);
      MovedHasParent(t, from, to, r, s);
    }
  }

  lemma RenamedKey(t: Tree, from0: Path, to0: Path, k: Path)
    requires RenameScope(t, from0, to0) && k in Rename(t, from0, to0).tree
    ensures Absolute(k) && HasParent(Rename(t, from0, to0).tree, k)
  {
    var from, to := Normalize(from0), Normalize(to0);
    var b := Between(t, from, to);
    BetweenSpec(t, from0, to0);
    MovedNodesAt(t, from, to, k);
    if k in MovedNodes(t, from, to) {
      assert k == to + k[|to|..];
      RenamedMoved(t, from0, to0, k[|to|..]);
    } else {
      assert HasParent(b, k);
      ParentKept(t, from, to, b, Rename(t, from0, to0).tree, k);
    }
  }

  /** A rename in scope keeps the tree, also into the subtree it moves. */
  lemma RenameIsTree(t: Tree, from0: Path, to0: Path)
    requires RenameScope(t, from0, to0)
    ensures IsTree(Rename(t, from0, to0).tree)
  {
    BetweenSpec(t, from0, to0);
    MovedNodesAt(t, Normalize(from0), Normalize(to0), ROOT);
    forall k | k in Rename(t, from0, to0).tree ensures Absolute(k) && HasParent(Rename(t, from0, to0).tree, k) {
      RenamedKey(t, from0, to0, k);
    }
  }

  /** A parent among the kept keys is not overwritten by a moved node. */
  lemma ParentKept(t: Tree, from: Path, to: Path, base1: Tree, r: Tree, k: Path)
    requires IsTree(t) && |from| > 1 && |to| > 1 && (to in t ==> t[to].File?)
    requires r == base1 + MovedNodes(t, from, to) && HasParent(base1, k)
    requires k == to || (k in base1 && (k in t || IsAncestor(k, to)))
    ensures HasParent(r, k)
  {
    var par := Parent(k);
    if k != ROOT && par != ROOT {
      NothingMovedAbove(t, from, to, k);
    }
  }

  lemma NothingMovedAbove(t: Tree, from: Path, to: Path, k: Path)
    requires IsTree(t) && |to| > 1 && (to in t ==> t[to].File?)
    requires k == to || k in t || IsAncestor(k, to)
    requires k != ROOT && Parent(k) != ROOT
    ensures Parent(k) !in MovedNodes(t, from, to)
  {
    var par := Parent(k);
    BelowParent(k);
    MovedNodesAt(t, from, to, par);
    UnderIsTail(par, to);
    if IsAncestor(k, to) { AncestorIsPrefix(k, to); }
    if k in t && to + ROOT <= k { BelowIsDir(t, to, k); }
  }

  // ---- Whole runs ----------------------------------------------------------------------------------

  datatype Op =
    | WriteOp(path: Path, data: seq<byte>)
    | WriteAtOp(path: Path, offset: nat, data: seq<byte>)
    | AppendOp(path: Path, data: seq<byte>)
    | TouchOp(path: Path)
    | MkdirOp(path: Path)
    | RemoveOp(path: Path)
    | RenameOp(path: Path, to: Path)

  function Apply(t: Tree, op: Op): Outcome {
    match op
    case WriteOp(path, data) => WriteFile(t, path, data)
    case WriteAtOp(path, offset, data) => WriteAt(t, path, offset, data)
    case AppendOp(path, data) => AppendFile(t, path, data)
    case TouchOp(path) => Touch(t, path)
    case MkdirOp(path) => Mkdir(t, path)
    case RemoveOp(path) => Remove(t, path)
    case RenameOp(path, to) => Rename(t, path, to)
  }

  /** No write or rename destination names an existing directory, no ancestor of a target is a file,
      and the root is not renamed. */
  ghost predicate InScope(t: Tree, op: Op) {
    var p := Normalize(op.path);
    match op
    case RemoveOp(_) => true
    case RenameOp(_, to0) =>
      var to := Normalize(to0); p != ROOT && (p != to && p in t ==> (to in t ==> t[to].File?) && NoFileAbove(t, to))
    case MkdirOp(_) => NoFileAbove(t, p)
    case TouchOp(_) => p in t || NoFileAbove(t, p)
    case _ => (p in t ==> t[p].File?) && NoFileAbove(t, p)
  }

  lemma ApplyIsTree(t: Tree, op: Op)
    requires IsTree(t) && InScope(t, op)
    ensures IsTree(Apply(t, op).tree)
  {
    var p := Normalize(op.path);
    match op
    case WriteOp(_, data) => CreateIsTree(t, p, data);
    case WriteAtOp(_, offset, data) =>
      if p in t { PutFileIsTree(t, p, Overlay(t[p].data, offset, data)); }
      else { CreateIsTree(t, p, Overlay([], offset, data)); }
    case AppendOp(_, data) => if p in t { PutFileIsTree(t, p, t[p].data + data); } else { CreateIsTree(t, p, data); }
    case TouchOp(_) => if p !in t { CreateIsTree(t, p, []); }
    case MkdirOp(_) => MkdirAllIsTree(t, p);
    case RemoveOp(_) => RemoveIsTree(t, op.path);
    case RenameOp(_, to) => if p != Normalize(to) && p in t { RenameIsTree(t, op.path, to); }
  }

  ghost predicate IsRun(trace: seq<Tree>, ops: seq<Op>) {
    && |trace| == |ops| + 1
    && forall n :: 0 <= n < |ops| ==> InScope(trace[n], ops[n]) && trace[n + 1] == Apply(trace[n], ops[n]).tree
  }

  /** RamFS stays a tree over every run in scope. */
  lemma {:induction false} TreeOverRuns(trace: seq<Tree>, ops: seq<Op>, n: nat)
    requires IsRun(trace, ops) && n < |trace| && IsTree(trace[0])
    ensures IsTree(trace[n])
  {
    if n > 0 {
      TreeOverRuns(trace, ops, n - 1);
      ApplyIsTree(trace[n - 1], ops[n - 1]);
      assert trace[n - 1 + 1] == Apply(trace[n - 1], ops[n - 1]).tree;
    }
  }

  /** The other way round: a write below a file makes a key whose parent is no directory, so the scope is needed. */
  lemma WriteBelowFileBreaksTree(t: Tree, file: Path, name: Path, data: seq<byte>)
    requires IsTree(t) && file in t && t[file].File? && file[|file| - 1] != SLASH
    requires |name| > 0 && SLASH !in name
    ensures !IsTree(WriteFile(t, file + ROOT + name, data).tree)
  {
    var p := file + ROOT + name;
    assert file != ROOT && |file| > 1;
    assert p[|p| - 1] in name;
    assert Normalize(p) == p;
    assert LastSlash(p) == |file| by {
      assert p[|file|] == SLASH;
      forall j | |file| < j < |p| ensures p[j] != SLASH { assert p[j] == name[j - |file| - 1]; }
    }
    assert p[..|file|] == file;
    var r := WriteFile(t, p, data).tree;
    assert Parent(p) == file && p in r && r[file] == t[file];
    assert !HasParent(r, p);
  }

  /** A file in place of something that has nothing below it. */
  lemma PutLeafIsTree(t: Tree, path: Path, data: seq<byte>)
    requires IsTree(t) && Absolute(path) && path != ROOT && HasParent(t, path)
    requires forall k :: k in t ==> !(path + ROOT <= k)
    ensures IsTree(t[path := File(data)])
  {
    var r := t[path := File(data)];
    forall k | k in r ensures Absolute(k) && HasParent(r, k) {
      if k != path {
        assert HasParent(t, k);
        if k != ROOT && Parent(k) != ROOT { BelowParent(k); }
      }
    }
  }

  /** Exactly when a write keeps the tree: its path is not the root, no ancestor of it is a file, and nothing
      lies below it. */
  lemma WriteKeepsTreeExactly(t: Tree, path: Path, data: seq<byte>)
    requires IsTree(t)
    ensures var p := Normalize(path);
            IsTree(WriteFile(t, path, data).tree) <==>
              p != ROOT && NoFileAbove(t, p) && forall k :: k in t ==> !(p + ROOT <= k)
  {
    var p := Normalize(path);
    var r := WriteFile(t, path, data).tree;
    MkdirAllAdds(t, Parent(p));
    if IsTree(r) {
      forall a: Path | IsAncestor(a, p) && a in t ensures t[a].Dir? {
        AncestorIsPrefix(a, p);
        BelowIsDir(r, a, p);
      }
      forall k | k in t ensures !(p + ROOT <= k) {
        if p + ROOT <= k { BelowIsDir(r, p, k); }
      }
    }
    if p != ROOT && NoFileAbove(t, p) && forall k :: k in t ==> !(p + ROOT <= k) {
      EnsureParentSpec(t, p);
      var e := EnsureParent(t, p);
      forall k | k in e ensures !(p + ROOT <= k) {
        if k !in t { AncestorIsPrefix(k, p); }
      }
      PutLeafIsTree(e, p, data);
    }
  }

  // ---- The tree that init builds ---------------------------------------------------------------------

  predicate IsName(n: Path) { |n| > 0 && SLASH !in n }

  function Top(name: Path): Path { ROOT + name }

  function Second(dir: Path, name: Path): Path { Top(dir) + ROOT + name }

  ghost predicate IsTop(k: Path, n: Path) { IsName(n) && k == Top(n) }

  ghost predicate IsSecond(t: Tree, k: Path, d: Path, n: Path) {
    IsName(d) && IsName(n) && k == Second(d, n) && Top(d) in t && t[Top(d)] == Dir
  }

  /** The form of the table that `init` inserts: the root, names below it, and names below directories of the table. */
  ghost predicate TwoLevels(t: Tree) {
    && ROOT in t && t[ROOT] == Dir
    && forall k :: k in t && k != ROOT ==>
         (exists n: Path :: IsTop(k, n)) || (exists d: Path, n: Path :: IsSecond(t, k, d, n))
  }

  lemma LastSlashIs(p: Path, i: nat)
    requires i < |p| && p[i] == SLASH && forall j :: i < j < |p| ==> p[j] != SLASH
    ensures LastSlash(p) == i
  {
  }

  lemma TopParent(n: Path)
    requires IsName(n)
    ensures Absolute(Top(n)) && Parent(Top(n)) == ROOT
  {
    LastSlashIs(Top(n), 0);
  }

  lemma SecondParent(d: Path, n: Path)
    requires IsName(d) && IsName(n)
    ensures Absolute(Second(d, n)) && Parent(Second(d, n)) == Top(d)
  {
    var p, i := Second(d, n), |Top(d)|;
    assert forall j :: i < j < |p| ==> p[j] == n[j - i - 1];
    LastSlashIs(p, i);
    assert p[..i] == Top(d);
  }

  lemma InitIsTree(t: Tree)
    requires TwoLevels(t)
    ensures IsTree(t)
  {
    forall k | k in t ensures Absolute(k) && HasParent(t, k) {
      if k != ROOT {
        if n: Path :| IsTop(k, n) {
          TopParent(n);
        } else {
          var d: Path, n: Path :| IsSecond(t, k, d, n);
          SecondParent(d, n);
        }
      }
    }
  }
}
