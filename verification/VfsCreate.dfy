/**
  What creating a file, directory or link comes to: when it succeeds, what it leaves
  under every path, and what an existing name does to it.
 */
module VfsCreate {
  import opened Paths
  import opened VfsSpec
  import VfsLinks

  type Way = seq<Str>

  // ----- Walks in a tree -----

  /** A walk that succeeds after an entry was added succeeded before, or ends with the new entry. */
  lemma {:induction false} WalkAfterAdd(t: Tree, d: nat, name: Str, node: Inode, cur: nat, cs: seq<Str>)
    requires TreeOk(t) && d < |t| && t[d].Dir? && (node.Dir? ==> node.children == []) && cur < |t|
    ensures var u := AddChild(t, d, name, node);
      Walk(u, cur, cs).Some? ==>
        Walk(t, cur, cs) == Walk(u, cur, cs)
        || (cs != [] && cs[|cs| - 1] == name && Walk(t, cur, cs[..|cs| - 1]) == Some(d) && Walk(u, cur, cs) == Some(|t|))
    decreases |cs|
  {
    hide TreeOk, Walk, FindIn, AddChild;
    var u := AddChild(t, d, name, node);
    AddedLength(t, d, name, node);
    VfsLinks.WalkUnfold(t, cur, cs);
    VfsLinks.WalkUnfold(u, cur, cs);
    if cs != [] && Walk(u, cur, cs).Some? {
      AddedFind(t, d, name, node, cur, cs[0]);
      if cur == d && cs[0] == name {
        DeadEnd(u, |t|, cs[1..]);
        VfsLinks.WalkUnfold(u, |t|, cs[1..]);
        assert cs[..0] == [];
        VfsLinks.WalkUnfold(t, cur, []);
      } else {
        var next := FindIn(t, cur, cs[0]).value;
        FindInLater(t, cur, cs[0]);
        WalkAfterAdd(t, d, name, node, next, cs[1..]);
        if cs[1..] != [] {
          assert cs[1..][..|cs| - 2] == cs[..|cs| - 1][1..];
          VfsLinks.WalkUnfold(t, cur, cs[..|cs| - 1]);
        } else {
          VfsLinks.WalkUnfold(t, next, []);
        }
      }
    }
  }

  lemma AddedLength(t: Tree, d: nat, name: Str, node: Inode)
    requires d < |t| && t[d].Dir?
    ensures |AddChild(t, d, name, node)| == |t| + 1 && AddChild(t, d, name, node)[|t|] == node
    ensures forall i :: 0 <= i < |t| ==> (AddChild(t, d, name, node)[i].Dir? <==> t[i].Dir?)
  {
  }

  lemma AddedFind(t: Tree, d: nat, name: Str, node: Inode, cur: nat, c: Str)
    requires d < |t| && t[d].Dir? && cur < |t|
    ensures FindIn(AddChild(t, d, name, node), cur, c) == if cur == d && c == name then Some(|t|) else FindIn(t, cur, c)
  {
    var cs := [Dentry(name, |t|)] + t[d].children;
    assert cs[1..] == t[d].children;
  }

  lemma DeadEnd(t: Tree, i: nat, cs: seq<Str>)
    requires i < |t| && (t[i].Dir? ==> t[i].children == [])
    ensures Walk(t, i, cs).Some? ==> cs == []
  {
  }

  lemma LastStep(t: Tree, cs: seq<Str>) returns (d: nat, k: nat)
    requires TreeOk(t) && cs != [] && Walk(t, 0, cs).Some?
    ensures Walk(t, 0, cs[..|cs| - 1]) == Some(d) && Names(t, d, k, Walk(t, 0, cs).value)
    ensures t[d].children[k].name == cs[|cs| - 1]
  {
    hide TreeOk, Walk;
    var n := |cs| - 1;
    assert cs == cs[..n] + [cs[n]];
    WalkConcat(t, 0, cs[..n], [cs[n]]);
    d := Walk(t, 0, cs[..n]).value;
    VfsLinks.WalkUnfold(t, d, [cs[n]]);
    k := FindIsEntry(t[d].children, cs[n]);
    VfsLinks.WalkUnfold(t, FindIn(t, d, cs[n]).value, []);
    assert [cs[n]][1..] == [];
  }

  lemma WalkFromRoot(t: Tree, cs: seq<Str>)
    requires TreeOk(t) && Walk(t, 0, cs).Some?
    ensures Walk(t, 0, cs).value < |t| && (Walk(t, 0, cs).value == 0 <==> cs == [])
  {
    hide TreeOk, Walk;
    if cs != [] {
      var d, k := LastStep(t, cs);
      EntryIsLater(t, d, k, Walk(t, 0, cs).value);
    } else {
      VfsLinks.WalkUnfold(t, 0, cs);
    }
  }

  lemma EntryIsLater(t: Tree, d: nat, k: nat, i: nat)
    requires TreeOk(t) && Names(t, d, k, i)
    ensures d < i < |t|
  {
  }

  lemma OneEntry(t: Tree, d: nat, k: nat, d': nat, k': nat, i: nat)
    requires TreeOk(t) && Names(t, d, k, i) && Names(t, d', k', i)
    ensures d == d' && k == k'
  {
  }

  /** In a tree there is one way to an inode. */
  lemma {:induction false} WalkUnique(t: Tree, a: seq<Str>, b: seq<Str>)
    requires TreeOk(t) && Walk(t, 0, a).Some? && Walk(t, 0, a) == Walk(t, 0, b)
    ensures a == b
    decreases |a|
  {
    hide TreeOk, Walk, Names;
    WalkFromRoot(t, a);
    WalkFromRoot(t, b);
    if a != [] {
      var d, k := LastStep(t, a);
      var d', k' := LastStep(t, b);
      OneEntry(t, d, k, d', k', Walk(t, 0, a).value);
      WalkUnique(t, a[..|a| - 1], b[..|b| - 1]);
      assert a == a[..|a| - 1] + [a[|a| - 1]] && b == b[..|b| - 1] + [b[|b| - 1]];
    }
  }

  lemma WalkSnoc(t: Tree, pre: Way, cur: nat, c: Str)
    requires Walk(t, 0, pre) == Some(cur) && cur < |t| && |c| <= NAME_LIMIT
    requires FindIn(t, cur, c).Some? ==> FindIn(t, cur, c).value < |t|
    ensures Walk(t, 0, pre + [c]) == FindIn(t, cur, c)
  {
    hide Walk;
    WalkConcat(t, 0, pre, [c]);
    VfsLinks.WalkUnfold(t, cur, [c]);
    assert [c][1..] == [];
    if FindIn(t, cur, c).Some? {
      VfsLinks.WalkUnfold(t, FindIn(t, cur, c).value, []);
    }
  }

  lemma ParentUnfold(t: Tree, cur: nat, comps: Way)
    requires cur < |t| && t[cur].Dir? && comps != [] && |comps[0]| <= NAME_LIMIT
    ensures WalkParent(t, cur, comps) ==
      if |comps| == 1 then Parent(t, Some(cur), comps[0])
      else if FindIn(t, cur, comps[0]).Some? then WalkParent(t, FindIn(t, cur, comps[0]).value, comps[1..])
      else WalkParent(AddChild(t, cur, comps[0], Dir(DIR_MODE, [])), |t|, comps[1..])
  {
  }

  // ----- When creation succeeds -----

  /** Nothing is at `cs`, or a directory is. */
  ghost predicate DirOrNothing(t: Tree, cur: nat, cs: Way) {
    Walk(t, cur, cs).Some? ==> Walk(t, cur, cs).value < |t| && t[Walk(t, cur, cs).value].Dir?
  }

  /** On the way from inode `cur` to the last name, nothing but directories is in the way. */
  ghost predicate ClearWay(t: Tree, cur: nat, comps: Way) {
    forall n :: 0 <= n < |comps| ==> DirOrNothing(t, cur, comps[..n])
  }

  predicate ShortNames(comps: Way) { forall c :: c in comps ==> |c| <= 255 }

  /** An entry can be made at the path, or is there already. */
  ghost predicate Enterable(t: Tree, path: Str) {
    Absolute(path) && Components(path) != [] && ShortNames(Components(path)) && ClearWay(t, 0, Components(path))
  }

  lemma ClearHere(t: Tree, cur: nat, comps: Way)
    requires cur < |t| && comps != [] && ClearWay(t, cur, comps)
    ensures t[cur].Dir?
  {
    assert DirOrNothing(t, cur, comps[..0]);
  }

  lemma WalkBegins(t: Tree, cur: nat, comps: Way, n: nat)
    requires cur < |t| && 0 < n <= |comps| && |comps[0]| <= NAME_LIMIT
    ensures Walk(t, cur, comps[..n]) ==
      if FindIn(t, cur, comps[0]).Some? then Walk(t, FindIn(t, cur, comps[0]).value, comps[1..][..n - 1]) else None
  {
    hide Walk, FindIn;
    VfsLinks.WalkUnfold(t, cur, comps[..n]);
    assert comps[..n][1..] == comps[1..][..n - 1];
  }

  /** The way on from the next directory is clear exactly if the whole way is. */
  lemma ClearNext(t: Tree, cur: nat, comps: Way)
    requires cur < |t| && t[cur].Dir? && |comps| >= 2 && |comps[0]| <= NAME_LIMIT && FindIn(t, cur, comps[0]).Some?
    ensures ClearWay(t, cur, comps) <==> ClearWay(t, FindIn(t, cur, comps[0]).value, comps[1..])
  {
    hide Walk, FindIn, DirOrNothing;
    var next := FindIn(t, cur, comps[0]).value;
    StartsClear(t, cur);
    assert comps[..0] == [];
    forall n | 0 < n < |comps|
      ensures DirOrNothing(t, cur, comps[..n]) <==> DirOrNothing(t, next, comps[1..][..n - 1])
    {
      WalkBegins(t, cur, comps, n);
      SameWalkSame(t, cur, comps[..n], next, comps[1..][..n - 1]);
    }
    if ClearWay(t, cur, comps) {
      forall n | 0 <= n < |comps[1..]|
        ensures DirOrNothing(t, next, comps[1..][..n])
      {
        assert DirOrNothing(t, cur, comps[..n + 1]);
      }
    }
  }

  lemma StartsClear(t: Tree, cur: nat)
    requires cur < |t| && t[cur].Dir?
    ensures DirOrNothing(t, cur, [])
  {
  }

  lemma SameWalkSame(t: Tree, cur: nat, cs: Way, cur': nat, cs': Way)
    requires Walk(t, cur, cs) == Walk(t, cur', cs')
    ensures DirOrNothing(t, cur, cs) <==> DirOrNothing(t, cur', cs')
  {
  }

  /** Where the next name is not there, nothing can be in the way. */
  lemma ClearNew(t: Tree, cur: nat, comps: Way)
    requires cur < |t| && t[cur].Dir? && |comps| >= 2 && |comps[0]| <= NAME_LIMIT && FindIn(t, cur, comps[0]).None?
    ensures ClearWay(t, cur, comps) && Walk(t, cur, comps).None?
  {
    hide Walk, FindIn;
    VfsLinks.WalkUnfold(t, cur, comps);
    StartsClear(t, cur);
    assert comps[..0] == [];
    forall n | 0 < n < |comps|
      ensures DirOrNothing(t, cur, comps[..n])
    {
      WalkBegins(t, cur, comps, n);
    }
  }

  /** A new directory is empty, so nothing is in the way in it. */
  lemma ClearInside(t: Tree, i: nat, comps: Way)
    requires i < |t| && t[i].Dir? && t[i].children == []
    ensures ClearWay(t, i, comps) && (comps != [] ==> Walk(t, i, comps).None?)
  {
    hide Walk;
    StartsClear(t, i);
    assert comps[..0] == [];
    DeadEnd(t, i, comps);
    forall n | 0 < n < |comps|
      ensures DirOrNothing(t, i, comps[..n])
    {
      DeadEnd(t, i, comps[..n]);
    }
  }

  lemma ShortRest(comps: Way)
    requires comps != []
    ensures ShortNames(comps) <==> |comps[0]| <= 255 && ShortNames(comps[1..])
  {
    assert comps == [comps[0]] + comps[1..];
  }

  lemma TooLong(t: Tree, cur: nat, comps: Way)
    requires cur < |t| && comps != [] && (|comps[0]| > NAME_LIMIT || !t[cur].Dir?)
    ensures var p := WalkParent(t, cur, comps); p.t == t && (p.dir.Some? ==> p.dir.value < |t| && !t[p.dir.value].Dir?)
    ensures Walk(t, cur, comps).None?
  {
  }

  /** The parent is found exactly on a clear way of short names; where the whole way leads somewhere, nothing is made. */
  lemma {:induction false} ParentIff(t: Tree, cur: nat, comps: Way)
    requires TreeOk(t) && cur < |t| && comps != [] && forall c :: c in comps ==> IsName(c) && NoNul(c)
    ensures var p := WalkParent(t, cur, comps);
      p.dir.Some? && p.dir.value < |p.t| && p.t[p.dir.value].Dir? <==> ShortNames(comps) && ClearWay(t, cur, comps)
    ensures Walk(t, cur, comps).Some? ==> WalkParent(t, cur, comps).t == t && ShortNames(comps) && ClearWay(t, cur, comps)
    decreases |comps|
  {
    hide TreeOk, Walk, WalkParent, AddChild, ClearWay, FindIn, ShortNames;
    assert comps[0] in comps && forall c :: c in comps[1..] ==> c in comps;
    ShortRest(comps);
    if |comps[0]| > NAME_LIMIT || !t[cur].Dir? {
      TooLong(t, cur, comps);
      if ClearWay(t, cur, comps) {
        ClearHere(t, cur, comps);
      }
    } else {
      ParentUnfold(t, cur, comps);
      VfsLinks.WalkUnfold(t, cur, comps);
      if |comps| == 1 {
        OneClear(t, cur, comps);
      } else if FindIn(t, cur, comps[0]).Some? {
        FindInLater(t, cur, comps[0]);
        ClearNext(t, cur, comps);
        ParentIff(t, FindIn(t, cur, comps[0]).value, comps[1..]);
      } else {
        var node := Dir(DIR_MODE, []);
        ClearNew(t, cur, comps);
        NewStep(t, cur, comps[0]);
        var t1 := AddChild(t, cur, comps[0], node);
        ClearInside(t1, |t|, comps[1..]);
        ParentIff(t1, |t|, comps[1..]);
      }
    }
  }

  lemma OneClear(t: Tree, cur: nat, comps: Way)
    requires cur < |t| && t[cur].Dir? && |comps| == 1
    ensures ClearWay(t, cur, comps) && (ShortNames(comps) <==> |comps[0]| <= 255)
  {
    StartsClear(t, cur);
    assert comps[..0] == [];
  }

  /** A missing directory is made. */
  lemma NewStep(t: Tree, cur: nat, c: Str)
    requires TreeOk(t) && cur < |t| && t[cur].Dir? && FindIn(t, cur, c).None? && IsName(c) && NoNul(c) && |c| <= NAME_LIMIT
    ensures var t1 := AddChild(t, cur, c, Dir(DIR_MODE, []));
      TreeOk(t1) && Grown(t, t1) && |t1| == |t| + 1 && t1[|t|] == Dir(DIR_MODE, []) && FindIn(t1, cur, c) == Some(|t|)
  {
    hide TreeOk, Grown, AddChild;
    AddChildKeepsTree(t, cur, c, Dir(DIR_MODE, []));
    AddChildGrows(t, cur, c, Dir(DIR_MODE, []));
    FoundAfterAdd(t, cur, c, Dir(DIR_MODE, []));
    AddedLength(t, cur, c, Dir(DIR_MODE, []));
  }

  // ----- What creation makes -----

  /** If `way` leads somewhere in `u` alone, it is a proper part of `whole` and leads to a directory with mode 0755. */
  ghost predicate OnlyDirs(t: Tree, u: Tree, whole: Way, way: Way) {
    Walk(u, 0, way).Some? && Walk(t, 0, way).None? ==>
      && |way| < |whole| && way <= whole && Walk(u, 0, way).value < |u|
      && u[Walk(u, 0, way).value].Dir? && u[Walk(u, 0, way).value].mode == 0x41ED
  }

  lemma {:induction false} ParentMakes(t: Tree, pre: Way, cur: nat, comps: Way)
    requires TreeOk(t) && Walk(t, 0, pre) == Some(cur) && cur < |t|
    requires comps != [] && forall c :: c in comps ==> IsName(c) && NoNul(c)
    ensures forall way :: OnlyDirs(t, WalkParent(t, cur, comps).t, pre + comps, way)
    decreases |comps|
  {
    hide TreeOk, Walk, WalkParent, AddChild, FindIn, Grown;
    assert comps[0] in comps && forall c :: c in comps[1..] ==> c in comps;
    if |comps[0]| > NAME_LIMIT || !t[cur].Dir? {
      TooLong(t, cur, comps);
    } else {
      ParentUnfold(t, cur, comps);
      var c, rest := comps[0], comps[1..];
      assert pre + [c] + rest == pre + comps;
      if |comps| >= 2 {
        if FindIn(t, cur, c).Some? {
          FindInLater(t, cur, c);
          WalkSnoc(t, pre, cur, c);
          ParentMakes(t, pre + [c], FindIn(t, cur, c).value, rest);
        } else {
          NewStep(t, cur, c);
          var t1 := AddChild(t, cur, c, Dir(DIR_MODE, []));
          WalkKept(t, t1, 0, pre);
          WalkSnoc(t1, pre, cur, c);
          ParentMakes(t1, pre + [c], |t|, rest);
          WalkParentGrows(t1, |t|, rest);
          forall way
            ensures OnlyDirs(t, WalkParent(t1, |t|, rest).t, pre + comps, way)
          {
            OneMoreDir(t, WalkParent(t1, |t|, rest).t, pre, cur, c, pre + comps, way);
          }
        }
      }
    }
  }

  lemma OneMoreDir(t: Tree, u: Tree, pre: Way, cur: nat, c: Str, whole: Way, way: Way)
    requires TreeOk(t) && Walk(t, 0, pre) == Some(cur) && cur < |t| && t[cur].Dir? && FindIn(t, cur, c).None?
    requires IsName(c) && NoNul(c) && |c| <= NAME_LIMIT && pre + [c] <= whole && |pre| + 1 < |whole|
    requires var t1 := AddChild(t, cur, c, Dir(DIR_MODE, [])); Grown(t1, u) && OnlyDirs(t1, u, whole, way)
    ensures OnlyDirs(t, u, whole, way)
  {
    hide TreeOk, Walk, AddChild, FindIn;
    NewStep(t, cur, c);
    RootThere(t);
    var t1 := AddChild(t, cur, c, Dir(DIR_MODE, []));
    if Walk(t, 0, way).None? && Walk(t1, 0, way).Some? {
      WalkAfterAdd(t, cur, c, Dir(DIR_MODE, []), 0, way);
      WalkUnique(t, way[..|way| - 1], pre);
      assert way == pre + [c];
      WalkKept(t1, u, 0, way);
      assert GrownInode(t1[|t|], u[|t|]);
    }
  }

  lemma LastName(t: Tree, comps: Way, d: nat)
    requires TreeOk(t) && comps != [] && |comps[|comps| - 1]| <= NAME_LIMIT && Walk(t, 0, comps[..|comps| - 1]) == Some(d) && d < |t|
    ensures FindIn(t, d, comps[|comps| - 1]) == Walk(t, 0, comps)
  {
    hide TreeOk, Walk, FindIn;
    var c := comps[|comps| - 1];
    if FindIn(t, d, c).Some? {
      FindInLater(t, d, c);
    }
    WalkSnoc(t, comps[..|comps| - 1], d, c);
    assert comps == comps[..|comps| - 1] + [c];
  }

  /**
    Exactly when creation succeeds: the path can be entered and nothing is there. Where
    something is there, the call returns `existing` and changes nothing.
   */
  lemma EnterIff(t: Tree, path: Str, node: Inode, existing: int)
    requires TreeOk(t) && NoNul(path) && (node.Dir? ==> node.children == [])
    ensures Enter(t, path, node, existing).rc ==
      if !Enterable(t, path) then -1 else if Walk(t, 0, Components(path)).Some? then existing else 0
    ensures Walk(t, 0, Components(path)).Some? ==> Enter(t, path, node, existing).t == t
  {
    hide TreeOk, Walk, WalkParent, FindIn, Grown, ClearWay, ShortNames;
    var comps := Components(path);
    RootThere(t);
    if Absolute(path) && comps == [] {
      VfsLinks.WalkUnfold(t, 0, []);
      EmptyParent(t);
    } else if Absolute(path) {
      PathNames(path);
      ParentIff(t, 0, comps);
      WalkParentGrows(t, 0, comps);
      VfsLinks.WalkUnfold(t, 0, []);
      ParentMakes(t, [], 0, comps);
      assert [] + comps == comps;
      var p := WalkParent(t, 0, comps);
      if p.dir.Some? {
        LastName(p.t, comps, p.dir.value);
        assert OnlyDirs(t, p.t, comps, comps);
        OnlyInDirs(p.t, p.dir.value, p.name);
      }
    }
  }

  lemma EmptyParent(t: Tree)
    requires |t| > 0
    ensures WalkParent(t, 0, []) == Parent(t, Some(0), [])
  {
  }

  lemma OnlyInDirs(t: Tree, d: nat, name: Str)
    requires d < |t|
    ensures FindIn(t, d, name).Some? ==> t[d].Dir?
  {
  }

  /** If `way` leads somewhere in `u` alone, it leads to `node` at `whole`, or to a directory with mode 0755 on the way there. */
  ghost predicate OnlyThis(t: Tree, u: Tree, whole: Way, node: Inode, way: Way) {
    Walk(u, 0, way).Some? && Walk(t, 0, way).None? ==>
      && Walk(u, 0, way).value < |u| && way <= whole
      && if way == whole then u[Walk(u, 0, way).value] == node
         else u[Walk(u, 0, way).value].Dir? && u[Walk(u, 0, way).value].mode == 0x41ED
  }

  /** Whatever the outcome, no path off the way comes to lead anywhere, and nothing on it but missing directories is made. */
  lemma CreatesNothingElse(t: Tree, path: Str, node: Inode, existing: int, way: Way)
    requires TreeOk(t) && NoNul(path) && (node.Dir? ==> node.children == [])
    ensures OnlyThis(t, Enter(t, path, node, existing).t, Components(path), node, way)
  {
    hide TreeOk, Walk, WalkParent, FindIn, Grown, AddChild;
    var comps := Components(path);
    RootThere(t);
    VfsLinks.WalkUnfold(t, 0, []);
    if Absolute(path) && comps == [] {
      EmptyParent(t);
    } else if Absolute(path) {
      PathNames(path);
      WalkParentGrows(t, 0, comps);
      ParentMakes(t, [], 0, comps);
      assert [] + comps == comps;
      var p := WalkParent(t, 0, comps);
      assert OnlyDirs(t, p.t, comps, way);
      if p.dir.Some? && FindIn(p.t, p.dir.value, p.name).None? && p.t[p.dir.value].Dir? {
        NewEntry(t, p.t, p.dir.value, comps, node, way);
      }
    }
  }

  lemma NewEntry(t: Tree, t1: Tree, d: nat, comps: Way, node: Inode, way: Way)
    requires TreeOk(t) && TreeOk(t1) && Grown(t, t1) && d < |t1| && t1[d].Dir? && (node.Dir? ==> node.children == [])
    requires comps != [] && Walk(t1, 0, comps[..|comps| - 1]) == Some(d) && FindIn(t1, d, comps[|comps| - 1]).None?
    requires OnlyDirs(t, t1, comps, way)
    ensures OnlyThis(t, AddChild(t1, d, comps[|comps| - 1], node), comps, node, way)
  {
    hide TreeOk, Walk, FindIn, Grown, AddChild;
    var name := comps[|comps| - 1];
    var u := AddChild(t1, d, name, node);
    RootThere(t1);
    AddedLength(t1, d, name, node);
    if Walk(u, 0, way).Some? {
      WalkAfterAdd(t1, d, name, node, 0, way);
      if Walk(t1, 0, way) == Walk(u, 0, way) {
        AddedSame(t1, d, name, node);
      } else {
        WalkUnique(t1, way[..|way| - 1], comps[..|comps| - 1]);
        assert way == way[..|way| - 1] + [name] && comps == comps[..|comps| - 1] + [name];
      }
    }
  }

  lemma AddedSame(t: Tree, d: nat, name: Str, node: Inode)
    requires d < |t| && t[d].Dir?
    ensures forall i :: 0 <= i < |t| ==>
      AddChild(t, d, name, node)[i].mode == t[i].mode && (AddChild(t, d, name, node)[i].Dir? <==> t[i].Dir?)
  {
  }

  lemma ShortPath(path: Str)
    requires |path| <= PATH_LIMIT
    ensures Truncated(path) == path
  {
  }

  /** A name that a lookup without following finds: creating and linking fail, making a directory succeeds, and nothing changes. */
  lemma ExistingName(t: Tree, path: Str, mode: nat, data: seq<byte>, target: Str)
    requires TreeOk(t) && NoNul(path) && |path| <= 511 && LookupNoFollow(t, path).Some? && Components(path) != []
    ensures Create(t, path, mode, data) == Made(t, -1)
    ensures SymlinkAt(t, target, path) == Made(t, -1)
    ensures Mkdir(t, path, mode) == Made(t, 0)
  {
    hide TreeOk, Walk, Enter, Components, ClearWay, ShortNames;
    ShortPath(path);
    FoundIsEnterable(t, path);
    EnterIff(t, path, File(mode, data), -1);
    EnterIff(t, path, Symlink(LINK_MODE, target), -1);
    EnterIff(t, path, Dir(mode, []), 0);
  }

  lemma FoundIsEnterable(t: Tree, path: Str)
    requires TreeOk(t) && NoNul(path) && Absolute(path) && Walk(t, 0, Components(path)).Some? && Components(path) != []
    ensures Enterable(t, path)
  {
    hide TreeOk, Walk, ClearWay, ShortNames;
    RootThere(t);
    PathNames(path);
    ParentIff(t, 0, Components(path));
  }

  /** What `node` at `path` comes to when nothing was there: the call returns 0, and the lookup without following finds it. */
  ghost predicate MadeAnew(t: Tree, m: Made, path: Str, node: Inode) {
    && m.rc == 0 && Grown(t, m.t)
    && LookupNoFollow(m.t, path).Some? && LookupNoFollow(m.t, path).value < |m.t| && m.t[LookupNoFollow(m.t, path).value] == node
  }

  /** A name that nothing holds: all three calls make what they are to make, with the mode of links fixed to 0777. */
  lemma NewName(t: Tree, path: Str, mode: nat, data: seq<byte>, target: Str)
    requires TreeOk(t) && NoNul(path) && |path| <= 511 && LookupNoFollow(t, path).None? && Enterable(t, path)
    ensures MadeAnew(t, Create(t, path, mode, data), path, File(mode, data))
    ensures MadeAnew(t, SymlinkAt(t, target, path), path, Symlink(0xA1FF, target))
    ensures MadeAnew(t, Mkdir(t, path, mode), path, Dir(mode, []))
  {
    hide TreeOk, Walk, Enter, Components, Enterable, MadeAnew;
    NewNode(t, path, File(mode, data), -1);
    NewNode(t, path, Symlink(LINK_MODE, target), -1);
    NewNode(t, path, Dir(mode, []), 0);
  }

  lemma NewNode(t: Tree, path: Str, node: Inode, existing: int)
    requires TreeOk(t) && NoNul(path) && |path| <= 511 && LookupNoFollow(t, path).None? && Enterable(t, path)
    requires node.Dir? ==> node.children == []
    ensures MadeAnew(t, Enter(t, path, node, existing), path, node)
  {
    hide TreeOk, Walk, WalkParent, FindIn, Grown, ClearWay, ShortNames, AddChild;
    ShortPath(path);
    EnterIff(t, path, node, existing);
    EnterKeeps(t, path, node, existing);
    NotThere(t, path);
    CreatedIsFound(t, path, node, existing);
  }

  /** Where the lookup finds nothing, the parent directory has no entry of the last name. */
  lemma NotThere(t: Tree, path: Str)
    requires TreeOk(t) && NoNul(path) && Enterable(t, path) && Walk(t, 0, Components(path)).None?
    ensures FindIn0(t, path).None?
  {
    hide TreeOk, Walk, WalkParent, FindIn, Grown, ClearWay, ShortNames;
    var comps := Components(path);
    RootThere(t);
    PathNames(path);
    WalkParentGrows(t, 0, comps);
    VfsLinks.WalkUnfold(t, 0, []);
    ParentMakes(t, [], 0, comps);
    assert [] + comps == comps;
    var p := WalkParent(t, 0, comps);
    if p.dir.Some? {
      LastName(p.t, comps, p.dir.value);
      assert OnlyDirs(t, p.t, comps, comps);
    }
  }
}
