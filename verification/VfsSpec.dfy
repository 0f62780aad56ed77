/**
  The in-memory file tree as a value: a table of inodes, the root first, and
  what creation and lookup without following links do.
 */
module VfsSpec {
  import opened Paths

  const NAME_LIMIT: nat := 255
  const PATH_LIMIT: nat := 511
  const S_IFDIR: nat := 0x4000
  const S_IFREG: nat := 0x8000
  const S_IFLNK: nat := 0xA000
  const DIR_MODE: nat := S_IFDIR + 0x1ED
  const LINK_MODE: nat := S_IFLNK + 0x1FF

  datatype Dentry = Dentry(name: Str, inode: nat)
  datatype Inode =
    | Dir(mode: nat, children: seq<Dentry>)
    | File(mode: nat, data: seq<byte>)
    | Symlink(mode: nat, target: Str)

  type Tree = seq<Inode>

  /** The root directory alone. */
  function NewTree(): Tree { [Dir(DIR_MODE, [])] }

  /** The first entry called `name`. */
  function Find(cs: seq<Dentry>, name: Str): Option<nat> {
    if cs == [] then None else if cs[0].name == name then Some(cs[0].inode) else Find(cs[1..], name)
  }

  function FindIn(t: Tree, i: nat, name: Str): Option<nat>
    requires i < |t|
  {
    if t[i].Dir? then Find(t[i].children, name) else None
  }

  /** A new inode, entered at the front of directory `d`. */
  function AddChild(t: Tree, d: nat, name: Str, node: Inode): Tree
    requires d < |t| && t[d].Dir?
  {
    t[d := t[d].(children := [Dentry(name, |t|)] + t[d].children)] + [node]
  }

  // ----- Lookup without following links -----

  /** The inode reached from `cur` by `comps`. */
  function Walk(t: Tree, cur: nat, comps: seq<Str>): Option<nat>
    decreases |comps|
  {
    if cur >= |t| then None
    else if comps == [] then Some(cur)
    else if |comps[0]| > NAME_LIMIT then None
    else
      var c := FindIn(t, cur, comps[0]);
      if c.None? then None else Walk(t, c.value, comps[1..])
  }

  function Truncated(path: Str): Str { if |path| > PATH_LIMIT then path[..PATH_LIMIT] else path }

  function LookupNoFollow(t: Tree, path: Str): Option<nat> {
    if !Absolute(path) then None else Walk(t, 0, Components(Truncated(path)))
  }

  // ----- Creation -----

  /** The tree with missing directories added, the inode that is to hold the last name, and that name. */
  datatype Parent = Parent(t: Tree, dir: Option<nat>, name: Str)

  function WalkParent(t: Tree, cur: nat, comps: seq<Str>): Parent
    decreases |comps|
  {
    if cur >= |t| then Parent(t, None, [])
    else if comps == [] then Parent(t, Some(cur), [])
    else if |comps[0]| > NAME_LIMIT then Parent(t, None, [])
    else if |comps| == 1 then Parent(t, Some(cur), comps[0])
    else if !t[cur].Dir? then Parent(t, None, [])
    else
      var c := Find(t[cur].children, comps[0]);
      if c.Some? then WalkParent(t, c.value, comps[1..])
      else WalkParent(AddChild(t, cur, comps[0], Dir(DIR_MODE, [])), |t|, comps[1..])
  }

  function LookupParent(t: Tree, path: Str): Parent {
    if !Absolute(path) then Parent(t, None, []) else WalkParent(t, 0, Components(path))
  }

  datatype Made = Made(t: Tree, rc: int)

  /** Enters `node` at `path`; an entry that exists already yields `existing`. */
  function Enter(t: Tree, path: Str, node: Inode, existing: int): Made {
    var p := LookupParent(t, path);
    if p.dir.None? || p.dir.value >= |p.t| || p.name == [] then Made(p.t, -1)
    else if FindIn(p.t, p.dir.value, p.name).Some? then Made(p.t, existing)
    else if !p.t[p.dir.value].Dir? then Made(p.t, -1)
    else Made(AddChild(p.t, p.dir.value, p.name, node), 0)
  }

  function Mkdir(t: Tree, path: Str, mode: nat): Made { Enter(t, path, Dir(mode, []), 0) }

  function Create(t: Tree, path: Str, mode: nat, data: seq<byte>): Made { Enter(t, path, File(mode, data), -1) }

  function SymlinkAt(t: Tree, target: Str, path: Str): Made { Enter(t, path, Symlink(LINK_MODE, target), -1) }

  // ----- The tree invariant -----

  predicate GoodName(c: Str) { IsName(c) && NoNul(c) && |c| <= NAME_LIMIT }

  predicate UniqueNames(cs: seq<Dentry>) {
    forall i, j :: 0 <= i < j < |cs| ==> cs[i].name != cs[j].name
  }

  /** Entry `k` of directory `d` names `i`. */
  predicate Names(t: Tree, d: nat, k: nat, i: nat) {
    d < |t| && t[d].Dir? && k < |t[d].children| && t[d].children[k].inode == i
  }

  ghost predicate HasParent(t: Tree, i: nat) { exists d: nat, k: nat :: Names(t, d, k, i) }

  /**
    A tree: the root is a directory, names are non-empty, slash-free and unique in
    their directory, every entry names a later inode, every inode but the root has
    an entry, and no inode has two.
   */
  ghost predicate TreeOk(t: Tree) {
    && |t| > 0 && t[0].Dir?
    && (forall d :: 0 <= d < |t| && t[d].Dir? ==> UniqueNames(t[d].children))
    && (forall d: nat, k: nat, i: nat :: Names(t, d, k, i) ==> d < i < |t| && GoodName(t[d].children[k].name))
    && (forall i: nat :: 0 < i < |t| ==> HasParent(t, i))
    && (forall d: nat, k: nat, d': nat, k': nat, i: nat :: Names(t, d, k, i) && Names(t, d', k', i) ==> d == d' && k == k')
  }

  lemma {:induction false} FindIsEntry(cs: seq<Dentry>, name: Str) returns (k: nat)
    requires Find(cs, name).Some?
    ensures k < |cs| && cs[k].name == name && Find(cs, name) == Some(cs[k].inode)
  {
    if cs[0].name == name {
      k := 0;
    } else {
      k := FindIsEntry(cs[1..], name);
      k := k + 1;
    }
  }

  lemma {:induction false} FindNone(cs: seq<Dentry>, name: Str)
    ensures Find(cs, name).None? <==> forall k :: 0 <= k < |cs| ==> cs[k].name != name
  {
    if cs != [] {
      FindNone(cs[1..], name);
      assert forall k :: 0 < k < |cs| ==> cs[k] == cs[1..][k - 1];
    }
  }

  /** A lookup step goes to a later inode of the table. */
  lemma FindInLater(t: Tree, d: nat, name: Str)
    requires TreeOk(t) && d < |t| && FindIn(t, d, name).Some?
    ensures d < FindIn(t, d, name).value < |t|
  {
    var k := FindIsEntry(t[d].children, name);
    assert Names(t, d, k, t[d].children[k].inode);
  }

  lemma AddChildNames(t: Tree, d: nat, name: Str, node: Inode, e: nat, k: nat, i: nat)
    requires d < |t| && t[d].Dir? && (node.Dir? ==> node.children == [])
    ensures Names(AddChild(t, d, name, node), e, k, i) <==>
      if e == d then (k == 0 && i == |t|) || (k > 0 && Names(t, d, k - 1, i)) else Names(t, e, k, i)
    ensures Names(AddChild(t, d, name, node), e, k, i) ==>
      AddChild(t, d, name, node)[e].children[k].name == if e == d && k == 0 then name
        else if e == d then t[d].children[k - 1].name else t[e].children[k].name
  {
  }

  /** Entering a new inode under a fresh good name keeps the tree a tree. */
  lemma AddChildKeepsTree(t: Tree, d: nat, name: Str, node: Inode)
    requires TreeOk(t) && d < |t| && t[d].Dir? && (node.Dir? ==> node.children == [])
    requires GoodName(name) && Find(t[d].children, name).None?
    ensures TreeOk(AddChild(t, d, name, node))
  {
    var t' := AddChild(t, d, name, node);
    FindNone(t[d].children, name);
    forall e: nat, k: nat, i: nat | Names(t', e, k, i)
      ensures e < i < |t'| && GoodName(t'[e].children[k].name)
    {
      AddChildNames(t, d, name, node, e, k, i);
    }
    forall i: nat | 0 < i < |t'|
      ensures HasParent(t', i)
    {
      if i == |t| {
        AddChildNames(t, d, name, node, d, 0, i);
      } else {
        assert HasParent(t, i);
        var e: nat, k: nat :| Names(t, e, k, i);
        AddChildNames(t, d, name, node, e, if e == d then k + 1 else k, i);
      }
    }
    forall e: nat, k: nat, e': nat, k': nat, i: nat | Names(t', e, k, i) && Names(t', e', k', i)
      ensures e == e' && k == k'
    {
      AddChildNames(t, d, name, node, e, k, i);
      AddChildNames(t, d, name, node, e', k', i);
    }
  }

  // ----- What creation leaves alone -----

  /** `u` is `t` with inodes added at the end and entries with new names added in front. */
  ghost predicate Grown(t: Tree, u: Tree) {
    && |t| <= |u|
    && forall i :: 0 <= i < |t| ==> GrownInode(t[i], u[i])
  }

  ghost predicate GrownInode(a: Inode, b: Inode) {
    if a.Dir? then
      b.Dir? && b.mode == a.mode && (forall n :: Find(a.children, n).Some? ==> Find(b.children, n) == Find(a.children, n))
    else b == a
  }

  lemma AddChildGrows(t: Tree, d: nat, name: Str, node: Inode)
    requires d < |t| && t[d].Dir? && Find(t[d].children, name).None?
    ensures Grown(t, AddChild(t, d, name, node))
  {
    var cs := [Dentry(name, |t|)] + t[d].children;
    assert cs[1..] == t[d].children;
  }

  lemma GrownTransitive(t: Tree, u: Tree, v: Tree)
    requires Grown(t, u) && Grown(u, v)
    ensures Grown(t, v)
  {
    forall i | 0 <= i < |t|
      ensures GrownInode(t[i], v[i])
    {
      assert GrownInode(t[i], u[i]) && GrownInode(u[i], v[i]);
    }
  }

  /** A lookup that found an inode still finds it. */
  lemma {:induction false} WalkKept(t: Tree, u: Tree, cur: nat, comps: seq<Str>)
    requires Grown(t, u) && Walk(t, cur, comps).Some?
    ensures Walk(u, cur, comps) == Walk(t, cur, comps)
    decreases |comps|
  {
    if comps != [] {
      assert GrownInode(t[cur], u[cur]);
      WalkKept(t, u, FindIn(t, cur, comps[0]).value, comps[1..]);
    }
  }

  lemma {:induction false} WalkParentGrows(t: Tree, cur: nat, comps: seq<Str>)
    requires TreeOk(t) && cur < |t| && forall c :: c in comps ==> IsName(c) && NoNul(c)
    ensures var p := WalkParent(t, cur, comps);
      && TreeOk(p.t) && Grown(t, p.t) && (p.dir.Some? ==> p.dir.value < |p.t|)
      && (p.dir.Some? && comps != [] ==>
            p.name == comps[|comps| - 1] && GoodName(p.name) && Walk(p.t, cur, comps[..|comps| - 1]) == p.dir)
    decreases |comps|
  {
    hide TreeOk, Grown, Find;
    GrownRefl(t);
    if |comps| >= 2 && |comps[0]| <= NAME_LIMIT && t[cur].Dir? {
      var c := Find(t[cur].children, comps[0]);
      assert comps[0] in comps && forall x :: x in comps[1..] ==> x in comps;
      var t1 := if c.Some? then t else AddChild(t, cur, comps[0], Dir(DIR_MODE, []));
      var next := if c.Some? then c.value else |t|;
      if c.Some? {
        FindInLater(t, cur, comps[0]);
      } else {
        AddChildKeepsTree(t, cur, comps[0], Dir(DIR_MODE, []));
        AddChildGrows(t, cur, comps[0], Dir(DIR_MODE, []));
        FoundAfterAdd(t, cur, comps[0], Dir(DIR_MODE, []));
      }
      WalkParentGrows(t1, next, comps[1..]);
      var p := WalkParent(t1, next, comps[1..]);
      GrownTransitive(t, t1, p.t);
      FoundInGrown(t1, p.t, cur, comps[0], next);
      assert comps[..|comps| - 1][1..] == comps[1..][..|comps| - 2];
    }
  }

  lemma GrownRefl(t: Tree)
    ensures Grown(t, t)
  {
  }

  lemma FoundAfterAdd(t: Tree, d: nat, name: Str, node: Inode)
    requires d < |t| && t[d].Dir?
    ensures FindIn(AddChild(t, d, name, node), d, name) == Some(|t|)
  {
  }

  lemma FoundInGrown(t: Tree, u: Tree, d: nat, name: Str, i: nat)
    requires Grown(t, u) && d < |t| && FindIn(t, d, name) == Some(i)
    ensures d < |u| && FindIn(u, d, name) == Some(i)
  {
    assert GrownInode(t[d], u[d]);
  }

  /** Creation keeps the tree, and keeps every lookup that succeeded before. */
  lemma EnterKeeps(t: Tree, path: Str, node: Inode, existing: int)
    requires TreeOk(t) && NoNul(path) && (node.Dir? ==> node.children == [])
    ensures TreeOk(Enter(t, path, node, existing).t) && Grown(t, Enter(t, path, node, existing).t)
  {
    hide TreeOk, Grown, Find;
    GrownRefl(t);
    RootThere(t);
    if Absolute(path) {
      PathNames(path);
      WalkParentGrows(t, 0, Components(path));
      var p := LookupParent(t, path);
      if p.dir.Some? && p.name != [] && FindIn(p.t, p.dir.value, p.name).None? && p.t[p.dir.value].Dir? {
        NonEmptyParent(t, Components(path));
        AddChildKeepsTree(p.t, p.dir.value, p.name, node);
        AddChildGrows(p.t, p.dir.value, p.name, node);
        GrownTransitive(t, p.t, Enter(t, path, node, existing).t);
      }
    }
  }

  lemma RootThere(t: Tree)
    requires TreeOk(t)
    ensures |t| > 0
  {
  }

  lemma PathNames(path: Str)
    requires NoNul(path)
    ensures forall c :: c in Components(path) ==> IsName(c) && NoNul(c)
  {
    forall c | c in Components(path)
      ensures IsName(c) && NoNul(c)
    {
      ComponentsAreNames(path, c);
    }
  }

  lemma NonEmptyParent(t: Tree, comps: seq<Str>)
    requires WalkParent(t, 0, comps).name != []
    ensures comps != []
  {
  }

  /** A no-follow lookup that succeeded before any creation returns the same inode after it. */
  lemma LookupKept(t: Tree, path: Str, node: Inode, existing: int, other: Str)
    requires TreeOk(t) && NoNul(path) && (node.Dir? ==> node.children == []) && LookupNoFollow(t, other).Some?
    ensures LookupNoFollow(Enter(t, path, node, existing).t, other) == LookupNoFollow(t, other)
  {
    EnterKeeps(t, path, node, existing);
    WalkKept(t, Enter(t, path, node, existing).t, 0, Components(Truncated(other)));
  }

  /** A call that creates: mkdir, create or symlink. */
  datatype Creation = Creation(path: Str, node: Inode, existing: int)

  predicate Legal(c: Creation) { NoNul(c.path) && (c.node.Dir? ==> c.node.children == []) }

  function AfterAll(t: Tree, cs: seq<Creation>): Tree
    decreases |cs|
  {
    if cs == [] then t else AfterAll(Enter(t, cs[0].path, cs[0].node, cs[0].existing).t, cs[1..])
  }

  /** Every run of creating calls, failing ones included, keeps the tree and every lookup that succeeded before. */
  lemma {:induction false} RunsKeepTree(t: Tree, cs: seq<Creation>, other: Str)
    requires TreeOk(t) && forall c :: c in cs ==> Legal(c)
    ensures TreeOk(AfterAll(t, cs)) && Grown(t, AfterAll(t, cs))
    ensures LookupNoFollow(t, other).Some? ==> LookupNoFollow(AfterAll(t, cs), other) == LookupNoFollow(t, other)
    decreases |cs|
  {
    hide TreeOk, Grown, Enter, LookupNoFollow;
    GrownRefl(t);
    if cs != [] {
      var u := Enter(t, cs[0].path, cs[0].node, cs[0].existing).t;
      assert cs[0] in cs && forall c :: c in cs[1..] ==> c in cs;
      EnterKeeps(t, cs[0].path, cs[0].node, cs[0].existing);
      if LookupNoFollow(t, other).Some? {
        LookupKept(t, cs[0].path, cs[0].node, cs[0].existing, other);
      }
      RunsKeepTree(u, cs[1..], other);
      GrownTransitive(t, u, AfterAll(t, cs));
    }
  }

  /** The inode just created is what a lookup of its path finds, for paths that lookups do not cut off. */
  lemma CreatedIsFound(t: Tree, path: Str, node: Inode, existing: int)
    requires TreeOk(t) && NoNul(path) && (node.Dir? ==> node.children == []) && |path| <= PATH_LIMIT
    requires Enter(t, path, node, existing).rc == 0 && FindIn0(t, path).None?
    ensures var u := Enter(t, path, node, existing).t;
      LookupNoFollow(u, path).Some? && LookupNoFollow(u, path).value < |u| && u[LookupNoFollow(u, path).value] == node
      && LookupNoFollow(u, path).value >= |t|
  {
    hide TreeOk, Grown, Find;
    RootThere(t);
    PathNames(path);
    var comps := Components(path);
    WalkParentGrows(t, 0, comps);
    NonEmptyParent(t, comps);
    var p := LookupParent(t, path);
    var u := Enter(t, path, node, existing).t;
    assert u == AddChild(p.t, p.dir.value, p.name, node);
    AddChildGrows(p.t, p.dir.value, p.name, node);
    WalkKept(p.t, u, 0, comps[..|comps| - 1]);
    FoundAfterAdd(p.t, p.dir.value, p.name, node);
    LongerInGrown(t, p.t);
    WalkConcat(u, 0, comps[..|comps| - 1], [p.name]);
    assert comps[..|comps| - 1] + [p.name] == comps;
    OneStep(u, p.dir.value, p.name, |p.t|);
  }

  /** What the parent directory holds under the last name before the entry is made. */
  function FindIn0(t: Tree, path: Str): Option<nat> {
    var p := LookupParent(t, path);
    if p.dir.Some? && p.dir.value < |p.t| then FindIn(p.t, p.dir.value, p.name) else None
  }

  lemma LongerInGrown(t: Tree, u: Tree)
    requires Grown(t, u)
    ensures |t| <= |u|
  {
  }

  lemma OneStep(t: Tree, d: nat, name: Str, i: nat)
    requires d < |t| && i < |t| && FindIn(t, d, name) == Some(i) && |name| <= NAME_LIMIT
    ensures Walk(t, d, [name]) == Some(i)
  {
    assert [name][1..] == [];
  }

  lemma {:induction false} WalkConcat(t: Tree, cur: nat, a: seq<Str>, b: seq<Str>)
    ensures Walk(t, cur, a + b) == if Walk(t, cur, a).Some? then Walk(t, Walk(t, cur, a).value, b) else None
    decreases |a|
  {
    if a == [] {
      assert a + b == b;
    } else {
      assert (a + b)[1..] == a[1..] + b;
      if cur < |t| && |a[0]| <= NAME_LIMIT && FindIn(t, cur, a[0]).Some? {
        WalkConcat(t, FindIn(t, cur, a[0]).value, a[1..], b);
      }
    }
  }
}
