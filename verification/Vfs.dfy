/**
  The file system as the kernel builds it: inodes are added to a table in place
  and paths are scanned with a cursor.
 */
module Vfs {
  import opened Paths
  import opened VfsSpec
  import VfsLinks

  /** The byte of a C string at `i`, NUL at its end. */
  function CharAt(s: Str, i: nat): byte
    requires i <= |s|
  {
    if i < |s| then s[i] else NUL
  }

  /** `strncmp (a, b, n) == 0` from position `i` on. */
  predicate SamePrefix(a: Str, b: Str, i: nat, n: nat)
    requires i <= |a| && i <= |b|
    decreases n
  {
    n == 0 || (CharAt(a, i) == CharAt(b, i) && (CharAt(a, i) == NUL || (i < |a| && i < |b| && SamePrefix(a, b, i + 1, n - 1))))
  }

  /** The test of `vfs_dir_find`: equal up to the length of `name`, and the entry's name ends there. */
  predicate NameMatches(entry: Str, name: Str) {
    SamePrefix(entry, name, 0, |name|) && |name| <= |entry| && CharAt(entry, |name|) == NUL
  }

  lemma {:induction false} SamePrefixMeans(a: Str, b: Str, i: nat)
    requires i <= |a| && i <= |b| && NoNul(a) && NoNul(b)
    ensures SamePrefix(a, b, i, |b| - i) <==> |b| <= |a| && a[i..|b|] == b[i..]
    decreases |b| - i
  {
    if i < |b| && i < |a| {
      SamePrefixMeans(a, b, i + 1);
      assert b[i..] == [b[i]] + b[i + 1..];
      assert |b| <= |a| ==> a[i..|b|] == [a[i]] + a[i + 1..|b|];
    }
  }

  /** The prefix comparison with the check of the terminator is equality of names. */
  lemma NameMatchesIsEquality(entry: Str, name: Str)
    requires NoNul(entry) && NoNul(name)
    ensures NameMatches(entry, name) <==> entry == name
  {
    SamePrefixMeans(entry, name, 0);
    assert entry[..] == entry && name[0..] == name;
    if NameMatches(entry, name) {
      assert |entry| == |name|;
      assert entry[0..|name|] == entry;
    }
  }

  lemma SkipOne(p: Str, j: nat)
    requires j <= |p|
    ensures SkipSlash(p[j..]) == if j < |p| && p[j] == SLASH then SkipSlash(p[j + 1..]) else p[j..]
  {
    assert j < |p| ==> p[j..][1..] == p[j + 1..];
  }

  method SkipSlashes(p: Str, i: nat) returns (j: nat)
    requires i <= |p|
    ensures i <= j <= |p| && p[j..] == SkipSlash(p[i..])
  {
    hide SkipSlash;
    j := i;
    SkipOne(p, j);
    while j < |p| && p[j] == SLASH
      invariant i <= j <= |p| && SkipSlash(p[j..]) == SkipSlash(p[i..])
    {
      SkipOne(p, j);
      j := j + 1;
    }
    SkipOne(p, j);
  }

  /** The length of the component at `i`; no result when it does not fit the name buffer. */
  method ScanComponent(p: Str, i: nat) returns (len: Option<nat>)
    requires i <= |p|
    ensures len == if HeadLen(p[i..]) > NAME_LIMIT then None else Some(HeadLen(p[i..]))
  {
    var n := 0;
    while i + n < |p| && p[i + n] != SLASH
      invariant n <= NAME_LIMIT && i + n <= |p|
      invariant HeadLen(p[i..]) == n + HeadLen(p[i + n..])
    {
      assert p[i + n..][1..] == p[i + n + 1..];
      if n + 1 >= NAME_LIMIT + 1 {
        return None;
      }
      n := n + 1;
    }
    return Some(n);
  }

  /** Where the cursor stands after a component and the slashes behind it. */
  lemma CursorStep(p: Str, i: nat, len: nat, j: nat)
    requires i < |p| && p[i] != SLASH && len == HeadLen(p[i..]) && i + len <= j <= |p|
    requires p[j..] == SkipSlash(p[i + len..])
    ensures SkipSlash(p[i..]) == p[i..] && First(p[i..]) == p[i..i + len] && Rest(p[i..]) == p[i + len..]
    ensures SkipSlash(Rest(p[i..])) == p[j..]
    ensures Components(p[i..]) == [p[i..i + len]] + Components(p[j..])
    ensures j == |p| <==> Components(p[j..]) == []
    ensures i < j
  {
    hide Components, SkipSlash, HeadLen, First, Rest;
    var s, r := p[i..], p[i + len..];
    HeadNotEmpty(s);
    FirstOf(s, s);
    assert s[..len] == p[i..i + len] && s[len..] == r;
    ComponentsUnfold(s);
    SkipToComponents(r, p[j..]);
    ComponentsUnfold(p[j..]);
  }

  lemma ComponentsUnfold(s: Str)
    ensures Components(s) == if SkipSlash(s) == [] then [] else [First(s)] + Components(Rest(s))
  {
  }

  lemma SkipToComponents(path: Str, s: Str)
    requires s == SkipSlash(path)
    ensures Components(s) == Components(path) && SkipSlash(s) == s && (s != [] ==> s[0] != SLASH)
  {
    VfsLinks.SkipTwice(path);
    SameSkip(s, path);
  }

  lemma LongFirst(path: Str, cursor: nat)
    requires cursor < |path| && path[cursor] != SLASH && HeadLen(path[cursor..]) > NAME_LIMIT
    ensures SkipSlash(path[cursor..]) == path[cursor..] && |First(path[cursor..])| > NAME_LIMIT
    ensures Components(path[cursor..]) != [] && Components(path[cursor..])[0] == First(path[cursor..])
  {
    assert SkipSlash(path[cursor..]) == path[cursor..];
    FirstOf(path[cursor..], path[cursor..]);
  }

  lemma ComponentIsGood(path: Str, cursor: nat, len: nat)
    requires NoNul(path) && cursor < |path| && path[cursor] != SLASH
    requires len == HeadLen(path[cursor..]) <= NAME_LIMIT && cursor + len <= |path|
    ensures GoodName(path[cursor..cursor + len])
  {
    hide HeadLen, SkipSlash, GoodName;
    assert path[cursor..][..len] == path[cursor..cursor + len];
    NulPart(path, cursor);
    HeadIsGood(path[cursor..]);
  }

  lemma HeadIsGood(s: Str)
    requires NoNul(s) && s != [] && s[0] != SLASH && HeadLen(s) <= NAME_LIMIT
    ensures GoodName(s[..HeadLen(s)])
  {
    HeadNotEmpty(s);
    PartOf(s, HeadLen(s));
  }

  lemma HeadNotEmpty(s: Str)
    requires s != [] && s[0] != SLASH
    ensures HeadLen(s) > 0 && SkipSlash(s) == s
  {
  }

  lemma NoneLeft(path: Str, cursor: nat)
    requires cursor == |path|
    ensures path[cursor..] == [] && Components(path[cursor..]) == [] && SkipSlash(path[cursor..]) == []
  {
  }

  lemma AddedLonger(t: Tree, d: nat, name: Str, node: Inode)
    requires d < |t| && t[d].Dir?
    ensures |AddChild(t, d, name, node)| == |t| + 1
  {
  }

  lemma EntryLater(t: Tree, d: nat, name: Str)
    requires TreeOk(t) && d < |t|
    ensures FindIn(t, d, name).Some? ==> FindIn(t, d, name).value < |t|
  {
    if FindIn(t, d, name).Some? {
      FindInLater(t, d, name);
    }
  }

  lemma LinkTextNoNul(done: Str, rest: Str, target: Str)
    requires NoNul(done) && NoNul(rest) && NoNul(target)
    ensures VfsLinks.AtLink(done, rest, target).Restart? ==> NoNul(VfsLinks.AtLink(done, rest, target).path)
  {
  }

  /** `c` is the component of `path` at `cursor`, and `next` is behind it and its slashes. */
  predicate NextAt(path: Str, cursor: nat, c: Str, next: nat) {
    && cursor < next <= |path| && (next < |path| ==> path[next] != SLASH)
    && GoodName(c) && First(path[cursor..]) == c && SkipSlash(Rest(path[cursor..])) == path[next..]
    && Components(path[cursor..]) == [c] + Components(path[next..])
    && (next == |path| <==> Components(path[next..]) == [])
  }

  lemma NextIs(path: Str, cursor: nat, len: nat, next: nat)
    requires NoNul(path) && cursor < |path| && path[cursor] != SLASH && len == HeadLen(path[cursor..]) <= NAME_LIMIT
    requires cursor + len <= next <= |path| && path[next..] == SkipSlash(path[cursor + len..])
    ensures NextAt(path, cursor, path[cursor..cursor + len], next)
  {
    hide Components, SkipSlash, HeadLen, First, Rest, GoodName;
    CursorStep(path, cursor, len, next);
    ComponentIsGood(path, cursor, len);
    if next < |path| {
      assert path[next..][0] == path[next];
    }
  }

  /** The component at the cursor, and the cursor behind it and its slashes; no component when it is too long. */
  method NextComponent(path: Str, cursor: nat) returns (c: Option<Str>, next: nat)
    requires cursor < |path| && path[cursor] != SLASH && NoNul(path)
    ensures SkipSlash(path[cursor..]) == path[cursor..] && path[cursor..] != []
    ensures c.None? ==> |First(path[cursor..])| > NAME_LIMIT
    ensures c.None? ==> Components(path[cursor..]) != [] && Components(path[cursor..])[0] == First(path[cursor..])
    ensures c.Some? ==> NextAt(path, cursor, c.value, next)
  {
    hide Components, SkipSlash, HeadLen, First, Rest, NextAt, NoNul;
    HeadNotEmpty(path[cursor..]);
    var len := ScanComponent(path, cursor);
    if len.None? {
      LongFirst(path, cursor);
      return None, cursor;
    }
    next := SkipSlashes(path, cursor + len.value);
    c := Some(path[cursor..cursor + len.value]);
    NextIs(path, cursor, len.value, next);
  }

  lemma NextFacts(path: Str, cursor: nat, c: Str, next: nat)
    requires NextAt(path, cursor, c, next)
    ensures GoodName(c) && NoNul(c) && cursor < next <= |path| && (next < |path| ==> path[next] != SLASH)
  {
  }

  /** What finding the parent comes to, at inode `cur` with `s` left to walk. */
  function ParentFrom(t: Tree, cur: nat, s: Str): Parent { WalkParent(t, cur, Components(s)) }

  lemma ParentStep(t: Tree, cur: nat, path: Str, cursor: nat, c: Str, next: nat)
    requires cur < |t| && NextAt(path, cursor, c, next)
    ensures ParentFrom(t, cur, path[cursor..]) ==
      if next == |path| then Parent(t, Some(cur), c)
      else if !t[cur].Dir? then Parent(t, None, [])
      else if FindIn(t, cur, c).Some? then ParentFrom(t, FindIn(t, cur, c).value, path[next..])
      else ParentFrom(AddChild(t, cur, c, Dir(DIR_MODE, [])), |t|, path[next..])
  {
    hide First, Rest, SkipSlash, Components, Find;
    var rest := Components(path[next..]);
    assert ([c] + rest)[1..] == rest;
  }

  lemma ParentEnds(t: Tree, cur: nat, s: Str)
    requires cur < |t|
    ensures s == [] ==> ParentFrom(t, cur, s) == Parent(t, Some(cur), [])
    ensures Components(s) != [] && |Components(s)[0]| > NAME_LIMIT ==> ParentFrom(t, cur, s) == Parent(t, None, [])
  {
  }

  lemma ParentStarts(t: Tree, path: Str, cursor: nat)
    requires Absolute(path) && cursor <= |path| && path[cursor..] == SkipSlash(path[0..])
    ensures ParentFrom(t, 0, path[cursor..]) == LookupParent(t, path)
    ensures cursor < |path| ==> path[cursor] != SLASH
  {
    hide Components, SkipSlash;
    assert path[0..] == path;
    SkipToComponents(path, path[cursor..]);
  }

  lemma WalkStep(t: Tree, cur: nat, c: Str, rest: seq<Str>)
    requires cur < |t| && |c| <= NAME_LIMIT
    ensures Walk(t, cur, [c] + rest) ==
      if FindIn(t, cur, c).None? then None else Walk(t, FindIn(t, cur, c).value, rest)
  {
    assert ([c] + rest)[1..] == rest;
  }

  /** The rest of a pass over `path`, at inode `cur` with `s` left to walk. */
  function PassFrom(t: Tree, path: Str, cur: nat, s: Str, follow: bool): VfsLinks.Pass
    requires |s| <= |path|
  {
    if follow then VfsLinks.PassAt(t, path, cur, s) else VfsLinks.Done(Walk(t, cur, Components(s)))
  }

  /** One component of a pass. */
  lemma PassStep(t: Tree, path: Str, follow: bool, cur: nat, cursor: nat, c: Str, next: nat)
    requires cur < |t| && NextAt(path, cursor, c, next) && SkipSlash(path[cursor..]) == path[cursor..] != []
    requires FindIn(t, cur, c).Some? ==> FindIn(t, cur, c).value < |t|
    ensures PassFrom(t, path, cur, path[cursor..], follow) ==
      var i := FindIn(t, cur, c);
      if i.None? then VfsLinks.Done(None)
      else if t[i.value].Symlink? && follow then VfsLinks.AtLink(path[..next], path[next..], t[i.value].target)
      else PassFrom(t, path, i.value, path[next..], follow)
  {
    hide SkipSlash, First, Rest, FindIn, VfsLinks.AtLink, VfsLinks.PassAt, Components, Walk;
    assert |path| - |path[next..]| == next;
    VfsLinks.PassAtUnfold(t, path, cur, path[cursor..]);
    WalkStep(t, cur, c, Components(path[next..]));
  }

  lemma PassEnds(t: Tree, path: Str, follow: bool, cur: nat, s: Str)
    requires |s| <= |path| && cur < |t|
    ensures s == [] ==> PassFrom(t, path, cur, s, follow) == VfsLinks.Done(Some(cur))
    ensures SkipSlash(s) != [] && |First(s)| > NAME_LIMIT && Components(s) != [] && Components(s)[0] == First(s) ==>
      PassFrom(t, path, cur, s, follow) == VfsLinks.Done(None)
  {
  }

  predicate TargetsOk(t: Tree) { forall i :: 0 <= i < |t| && t[i].Symlink? ==> NoNul(t[i].target) }

  class FileSystem {
    var inodes: Tree

    /** The tree, with all names and targets free of NUL as C strings are. */
    ghost predicate Valid()
      reads this
    {
      TreeOk(inodes) && TargetsOk(inodes)
    }

    constructor ()
      ensures Valid() && inodes == NewTree()
    {
      inodes := NewTree();
    }

    method DirFind(dir: nat, name: Str) returns (r: Option<nat>)
      requires Valid() && dir < |inodes| && NoNul(name)
      ensures r == FindIn(inodes, dir, name)
    {
      if !inodes[dir].Dir? {
        return None;
      }
      var cs := inodes[dir].children;
      var k := 0;
      while k < |cs|
        invariant k <= |cs| && Find(cs, name) == Find(cs[k..], name)
      {
        assert cs[k..][1..] == cs[k + 1..];
        assert Names(inodes, dir, k, cs[k].inode);
        NameMatchesIsEquality(cs[k].name, name);
        if NameMatches(cs[k].name, name) {
          return Some(cs[k].inode);
        }
        k := k + 1;
      }
      return None;
    }

    /** Enters a new inode in directory `dir`; fails on a non-directory or a taken name. */
    method DirAdd(dir: nat, name: Str, node: Inode) returns (rc: int)
      requires Valid() && dir < |inodes| && GoodName(name) && (node.Dir? ==> node.children == [])
      requires node.Symlink? ==> NoNul(node.target)
      modifies this
      ensures Valid()
      ensures rc == if old(inodes[dir]).Dir? && FindIn(old(inodes), dir, name).None? then 0 else -1
      ensures inodes == if rc == 0 then AddChild(old(inodes), dir, name, node) else old(inodes)
    {
      if !inodes[dir].Dir? {
        return -1;
      }
      var e := DirFind(dir, name);
      if e.Some? {
        return -1;
      }
      AddChildKeepsTree(inodes, dir, name, node);
      inodes := AddChild(inodes, dir, name, node);
      return 0;
    }

    /** The inode to hold the last name of `path`, making missing directories on the way. */
    method LookupParentDir(path: Str) returns (dir: Option<nat>, name: Str)
      requires Valid() && NoNul(path)
      modifies this
      ensures Valid() && Parent(inodes, dir, if dir.Some? then name else []) == LookupParent(old(inodes), path)
    {
      hide TreeOk, Components, FindIn, SkipSlash, First, Rest, ParentFrom, AddChild, NextAt, GoodName;
      name := [];
      if !Absolute(path) {
        return None, [];
      }
      RootThere(inodes);
      var cursor := SkipSlashes(path, 0);
      ParentStarts(inodes, path, cursor);
      var current: nat := 0;
      while cursor < |path|
        invariant cursor <= |path| && (cursor < |path| ==> path[cursor] != SLASH) && current < |inodes| && Valid()
        invariant ParentFrom(inodes, current, path[cursor..]) == LookupParent(old(inodes), path)
        decreases |path| - cursor
      {
        var component, next := NextComponent(path, cursor);
        if component.None? {
          ParentEnds(inodes, current, path[cursor..]);
          return None, [];
        }
        NextFacts(path, cursor, component.value, next);
        ParentStep(inodes, current, path, cursor, component.value, next);
        cursor := next;
        if cursor == |path| {
          return Some(current), component.value;
        }
        if !inodes[current].Dir? {
          return None, [];
        }
        var entry := DirFind(current, component.value);
        if entry.None? {
          var made := |inodes|;
          AddedLonger(inodes, current, component.value, Dir(DIR_MODE, []));
          var rc := DirAdd(current, component.value, Dir(DIR_MODE, []));
          current := made;
        } else {
          FindInLater(inodes, current, component.value);
          current := entry.value;
        }
      }
      NoneLeft(path, cursor);
      ParentEnds(inodes, current, []);
      return Some(current), [];
    }

    /** The inode at `path`; `fuel` restarts are known to be enough when links are followed. */
    method LookupPath(path: Str, follow: bool, ghost fuel: nat) returns (r: Option<nat>)
      requires Valid() && NoNul(path)
      requires follow ==> VfsLinks.LookupFollow(inodes, path, fuel).Some?
      ensures !follow ==> r == LookupNoFollow(inodes, path)
      ensures follow ==> Some(r) == VfsLinks.LookupFollow(inodes, path, fuel)
    {
      hide TreeOk, Components, Find, SkipSlash, HeadLen, First, Rest;
      if !Absolute(path) {
        return None;
      }
      RootThere(inodes);
      r := None;
      var curpath := Truncated(path);
      ghost var left := fuel;
      var again := true;
      while again
        invariant NoNul(curpath)
        invariant !follow ==> LookupNoFollow(inodes, path) == if again then Walk(inodes, 0, Components(curpath)) else r
        invariant follow ==>
          VfsLinks.LookupFollow(inodes, path, fuel) == (if again then VfsLinks.Lookup(inodes, curpath, left) else Some(r))
        decreases again, left
      {
        var p := OnePass(curpath, follow);
        match p {
          case Done(found) =>
            r := found;
            again := false;
          case Restart(next) =>
            curpath := next;
            left := left - 1;
        }
      }
    }

    /** One pass from the root over `path`. */
    method OnePass(path: Str, follow: bool) returns (p: VfsLinks.Pass)
      requires Valid() && NoNul(path)
      ensures !follow ==> p == VfsLinks.Done(Walk(inodes, 0, Components(path)))
      ensures follow ==> p == VfsLinks.PassOver(inodes, path)
      ensures p.Restart? ==> NoNul(p.path)
    {
      hide TreeOk, Components, Find, FindIn, SkipSlash, First, Rest, Walk, VfsLinks.PassAt, VfsLinks.AtLink;
      RootThere(inodes);
      var cursor := SkipSlashes(path, 0);
      assert path[0..] == path;
      SkipToComponents(path, path[cursor..]);
      p := PassBehind(path, cursor, follow);
    }

    /** The pass itself, the cursor behind the first slashes. */
    method PassBehind(path: Str, start: nat, follow: bool) returns (p: VfsLinks.Pass)
      requires Valid() && NoNul(path) && start <= |path| && (start < |path| ==> path[start] != SLASH) && |inodes| > 0
      ensures p == PassFrom(inodes, path, 0, path[start..], follow)
      ensures p.Restart? ==> NoNul(p.path)
    {
      hide TreeOk, Components, FindIn, SkipSlash, First, Rest, PassFrom, VfsLinks.AtLink, NextAt, GoodName;
      var cursor := start;
      var current: nat := 0;
      while cursor < |path|
        invariant cursor <= |path| && (cursor < |path| ==> path[cursor] != SLASH) && current < |inodes|
        invariant PassFrom(inodes, path, current, path[cursor..], follow) == PassFrom(inodes, path, 0, path[start..], follow)
        decreases |path| - cursor
      {
        var component, next := NextComponent(path, cursor);
        if component.None? {
          PassEnds(inodes, path, follow, current, path[cursor..]);
          return VfsLinks.Done(None);
        }
        NextFacts(path, cursor, component.value, next);
        EntryLater(inodes, current, component.value);
        PassStep(inodes, path, follow, current, cursor, component.value, next);
        cursor := next;
        if !inodes[current].Dir? {
          VfsLinks.NoEntries(inodes, current, component.value);
          return VfsLinks.Done(None);
        }
        var entry := DirFind(current, component.value);
        if entry.None? {
          return VfsLinks.Done(None);
        }
        current := entry.value;
        if inodes[current].Symlink? && follow {
          LinkTextNoNul(path[..cursor], path[cursor..], inodes[current].target);
          return VfsLinks.AtLink(path[..cursor], path[cursor..], inodes[current].target);
        }
      }
      NoneLeft(path, cursor);
      PassEnds(inodes, path, follow, current, []);
      return VfsLinks.Done(Some(current));
    }

    // ----- Creation -----

    /** The common part of the three creating calls; `existing` is the result when the name is taken. */
    method EnterNode(path: Str, node: Inode, existing: int) returns (rc: int)
      requires Valid() && NoNul(path) && (node.Dir? ==> node.children == []) && (node.Symlink? ==> NoNul(node.target))
      modifies this
      ensures Valid() && Made(inodes, rc) == Enter(old(inodes), path, node, existing)
    {
      hide TreeOk, Find;
      ghost var t := inodes;
      PathNames(path);
      RootThere(t);
      WalkParentGrows(t, 0, Components(path));
      var dir, name := LookupParentDir(path);
      if dir.None? || name == [] {
        return -1;
      }
      NonEmptyParent(t, Components(path));
      var e := DirFind(dir.value, name);
      if e.Some? {
        return existing;
      }
      rc := DirAdd(dir.value, name, node);
    }

    method MakeDir(path: Str, mode: nat) returns (rc: int)
      requires Valid() && NoNul(path)
      modifies this
      ensures Valid() && Made(inodes, rc) == Mkdir(old(inodes), path, mode)
    {
      rc := EnterNode(path, Dir(mode, []), 0);
    }

    method CreateFile(path: Str, mode: nat, data: seq<byte>) returns (rc: int)
      requires Valid() && NoNul(path)
      modifies this
      ensures Valid() && Made(inodes, rc) == Create(old(inodes), path, mode, data)
    {
      rc := EnterNode(path, File(mode, data), -1);
    }

    method MakeSymlink(target: Str, path: Str) returns (rc: int)
      requires Valid() && NoNul(path) && NoNul(target)
      modifies this
      ensures Valid() && Made(inodes, rc) == SymlinkAt(old(inodes), target, path)
    {
      rc := EnterNode(path, Symlink(LINK_MODE, target), -1);
    }

    // ----- Reading -----

    /** Up to `count` bytes of the file at `path` from `offset` on; no result for anything but a file. */
    method ReadAt(path: Str, offset: nat, count: nat, ghost fuel: nat) returns (r: Option<seq<byte>>)
      requires Valid() && NoNul(path) && VfsLinks.LookupFollow(inodes, path, fuel).Some?
      ensures r == ReadBytes(inodes, VfsLinks.LookupFollow(inodes, path, fuel).value, offset, count)
    {
      hide VfsLinks.LookupFollow, TreeOk, TargetsOk;
      var i := LookupPath(path, true, fuel);
      if i.None? || i.value >= |inodes| || !inodes[i.value].File? {
        return None;
      }
      var data := inodes[i.value].data;
      if offset >= |data| {
        return Some([]);
      }
      var available := |data| - offset;
      var n := if count > available then available else count;
      assert data[offset..|data|] == data[offset..];
      return Some(data[offset..offset + n]);
    }
  }

  /** The bytes of a file from `offset` on, at most `count`. */
  function ReadBytes(t: Tree, i: Option<nat>, offset: nat, count: nat): Option<seq<byte>> {
    if i.None? || i.value >= |t| || !t[i.value].File? then None
    else
      var data := t[i.value].data;
      if offset >= |data| then Some([])
      else if offset + count >= |data| then Some(data[offset..])
      else Some(data[offset..offset + count])
  }

  /** The bytes of a regular file. */
  function FileAt(t: Tree, i: Option<nat>): Option<seq<byte>> {
    if i.None? || i.value >= |t| || !t[i.value].File? then None else Some(t[i.value].data)
  }

  /** The part of `file` from `offset` on, at most `count` bytes. */
  function Part(file: seq<byte>, offset: nat, count: nat): (r: seq<byte>)
    ensures |r| <= count && (offset <= |file| ==> |r| <= |file| - offset)
    ensures offset + count <= |file| ==> |r| == count
    ensures forall k :: 0 <= k < count ==> (k < |r| <==> offset + k < |file|) && (k < |r| ==> r[k] == file[offset + k])
  {
    if offset >= |file| then []
    else if offset + count >= |file| then file[offset..]
    else file[offset..offset + count]
  }

  lemma ReadIsPart(t: Tree, i: Option<nat>, offset: nat, count: nat)
    ensures ReadBytes(t, i, offset, count) ==
      if FileAt(t, i).None? then None else Some(Part(FileAt(t, i).value, offset, count))
  {
  }
}
