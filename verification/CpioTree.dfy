/**
  Installing the entries of an archive: why every entry of a well-formed list goes
  in, and why all of them are found afterwards; and what stops a loader.
 */
module CpioTree {
  import opened Paths
  import opened VfsSpec
  import opened CpioSpec
  import opened CpioImage
  import opened VfsCreate
  import VfsLinks
  import Vfs

  // ----- All that a tree holds -----

  ghost predicate Within(cs: Way, ways: set<Way>) { cs == [] || exists w :: w in ways && cs <= w }

  ghost predicate Known(t: Tree, ways: set<Way>, leaves: set<Way>, cs: Way) {
    Walk(t, 0, cs).Some? ==>
      Within(cs, ways) && (Walk(t, 0, cs).value < |t| && !t[Walk(t, 0, cs).value].Dir? ==> cs in leaves)
  }

  /** Whatever can be reached is on one of `ways`, and is a directory unless one of `leaves` leads to it. */
  ghost predicate Accounted(t: Tree, ways: set<Way>, leaves: set<Way>) {
    forall cs :: Known(t, ways, leaves, cs)
  }

  lemma MoreWays(t: Tree, ways: set<Way>, leaves: set<Way>, ways': set<Way>, leaves': set<Way>)
    requires Accounted(t, ways, leaves) && ways <= ways' && leaves <= leaves'
    ensures Accounted(t, ways', leaves')
  {
    forall cs: Way
      ensures Known(t, ways', leaves', cs)
    {
      assert Known(t, ways, leaves, cs);
    }
  }

  lemma AddKeepsAccount(t: Tree, d: nat, pre: Way, name: Str, node: Inode, ways: set<Way>, leaves: set<Way>)
    requires TreeOk(t) && Accounted(t, ways, leaves) && d < |t| && t[d].Dir? && (node.Dir? ==> node.children == [])
    requires Walk(t, 0, pre) == Some(d) && Within(pre + [name], ways) && (node.Dir? || pre + [name] in leaves)
    ensures Accounted(AddChild(t, d, name, node), ways, leaves)
  {
    hide TreeOk, Walk, AddChild, Within;
    var u := AddChild(t, d, name, node);
    AddedLength(t, d, name, node);
    RootThere(t);
    forall cs: Way
      ensures Known(u, ways, leaves, cs)
    {
      if Walk(u, 0, cs).Some? {
        WalkAfterAdd(t, d, name, node, 0, cs);
        if Walk(t, 0, cs) == Walk(u, 0, cs) {
          assert Known(t, ways, leaves, cs);
          WalkFromRoot(t, cs);
        } else {
          WalkUnique(t, cs[..|cs| - 1], pre);
          assert cs == pre + [name];
        }
      }
    }
  }

  predicate Clear(leaves: set<Way>, way: Way) { forall l :: l in leaves ==> !(l <= way) }

  /** Finding the parent for a way that no leaf is on ends at a directory, and makes nothing off the way. */
  lemma {:induction false} ParentReached(t: Tree, pre: Way, cur: nat, comps: Way, ways: set<Way>, leaves: set<Way>)
    requires TreeOk(t) && Accounted(t, ways, leaves) && Walk(t, 0, pre) == Some(cur) && cur < |t|
    requires comps != [] && (forall c :: c in comps ==> GoodName(c))
    requires Within(pre + comps[..|comps| - 1], ways) && Clear(leaves, pre + comps)
    ensures var p := WalkParent(t, cur, comps);
      p.dir.Some? && p.dir.value < |p.t| && p.t[p.dir.value].Dir? && Accounted(p.t, ways, leaves)
    decreases |comps|
  {
    hide TreeOk, Walk, WalkParent, Accounted, AddChild, Within, Clear, GoodName, Known;
    NotALeaf(t, pre, cur, comps, ways, leaves);
    assert comps[0] in comps;
    GoodIsShort(comps[0]);
    ParentUnfold(t, cur, comps);
    if |comps| >= 2 {
      var c, rest := comps[0], comps[1..];
      var found := FindIn(t, cur, c);
      var t1 := if found.Some? then t else AddChild(t, cur, c, Dir(DIR_MODE, []));
      var next := if found.Some? then found.value else |t|;
      Vfs.EntryLater(t, cur, c);
      WalkSnoc(t, pre, cur, c);
      WithinPrefix(pre + [c], pre + comps[..|comps| - 1], ways);
      if found.None? {
        AddChildKeepsTree(t, cur, c, Dir(DIR_MODE, []));
        AddKeepsAccount(t, cur, pre, c, Dir(DIR_MODE, []), ways, leaves);
        AddedLength(t, cur, c, Dir(DIR_MODE, []));
        AddChildGrows(t, cur, c, Dir(DIR_MODE, []));
        WalkKept(t, t1, 0, pre);
        FoundAfterAdd(t, cur, c, Dir(DIR_MODE, []));
        WalkSnoc(t1, pre, cur, c);
      }
      assert pre + [c] + rest == pre + comps;
      assert pre + [c] + rest[..|rest| - 1] == pre + comps[..|comps| - 1];
      assert forall x :: x in rest ==> x in comps;
      ParentReached(t1, pre + [c], next, rest, ways, leaves);
    }
  }

  lemma WithinPrefix(a: Way, b: Way, ways: set<Way>)
    requires a <= b && Within(b, ways)
    ensures Within(a, ways)
  {
    if a != [] {
      var w :| w in ways && b <= w;
      assert a <= w;
    }
  }

  lemma NotALeaf(t: Tree, pre: Way, cur: nat, comps: Way, ways: set<Way>, leaves: set<Way>)
    requires Accounted(t, ways, leaves) && Walk(t, 0, pre) == Some(cur) && cur < |t| && Clear(leaves, pre + comps)
    ensures t[cur].Dir?
  {
    assert Known(t, ways, leaves, pre);
    assert pre <= pre + comps;
  }

  // ----- One entry -----

  predicate GoodPath(path: Str) {
    Absolute(path) && NoNul(path) && Components(path) != [] && forall c :: c in Components(path) ==> GoodName(c)
  }

  /** What holds once `path` was entered with `node`. */
  ghost predicate Entered(t: Tree, u: Tree, way: Way, node: Inode, ways: set<Way>, leaves: set<Way>) {
    && TreeOk(u) && Grown(t, u)
    && Accounted(u, ways + {way}, if node.Dir? then leaves else leaves + {way})
    && Walk(u, 0, way).Some? && Walk(u, 0, way).value < |u|
    && (if node.Dir? then u[Walk(u, 0, way).value].Dir? else u[Walk(u, 0, way).value] == node)
  }

  /** No leaf on the way: the entry goes in, or it is a directory that was there already. */
  lemma EnterWorks(t: Tree, path: Str, node: Inode, existing: int, ways: set<Way>, leaves: set<Way>)
    requires TreeOk(t) && Accounted(t, ways, leaves) && GoodPath(path) && Clear(leaves, Components(path))
    requires if node.Dir? then node.children == [] && existing == 0 else !Within(Components(path), ways)
    ensures var m := Enter(t, path, node, existing);
      m.rc == 0 && Entered(t, m.t, Components(path), node, ways, leaves)
  {
    hide TreeOk, Walk, WalkParent, Accounted, AddChild, Within, Clear, Known, Grown, Components, GoodName;
    var way := Components(path);
    var n := |way| - 1;
    var pre := way[..n];
    EnterKeeps(t, path, node, existing);
    RootThere(t);
    VfsLinks.WalkUnfold(t, 0, []);
    MoreWays(t, ways, leaves, ways + {pre}, leaves);
    OnWay(pre, pre, ways);
    assert [] + way == way && [] + pre == pre;
    ParentReached(t, [], 0, way, ways + {pre}, leaves);
    NamesOfGood(way);
    WalkParentGrows(t, 0, way);
    var p := WalkParent(t, 0, way);
    assert way == pre + [p.name];
    GoodIsShort(p.name);
    LastEntry(p.t, p.dir.value, pre, p.name, way, node, ways, leaves);
  }

  lemma NamesOfGood(way: Way)
    requires forall c :: c in way ==> GoodName(c)
    ensures forall c :: c in way ==> IsName(c) && NoNul(c)
  {
  }

  lemma OnWay(a: Way, w: Way, ways: set<Way>)
    requires a <= w
    ensures Within(a, ways + {w})
  {
    assert w in ways + {w};
  }

  lemma GoodIsShort(name: Str)
    requires GoodName(name)
    ensures |name| <= NAME_LIMIT && name != []
  {
  }

  /** The last step of `Enter`, in the directory that is to hold the entry. */
  lemma LastEntry(t: Tree, d: nat, pre: Way, name: Str, way: Way, node: Inode, ways: set<Way>, leaves: set<Way>)
    requires TreeOk(t) && Accounted(t, ways + {pre}, leaves) && d < |t| && t[d].Dir? && Walk(t, 0, pre) == Some(d)
    requires way == pre + [name] && GoodName(name) && Clear(leaves, way)
    requires if node.Dir? then node.children == [] else !Within(way, ways)
    ensures !node.Dir? ==> FindIn(t, d, name).None?
    ensures FindIn(t, d, name).Some? ==>
      Accounted(t, ways + {way}, leaves) && Walk(t, 0, way).Some? && Walk(t, 0, way).value < |t| && t[Walk(t, 0, way).value].Dir?
    ensures FindIn(t, d, name).None? ==>
      var u := AddChild(t, d, name, node);
      Accounted(u, ways + {way}, if node.Dir? then leaves else leaves + {way}) && Walk(u, 0, way) == Some(|t|)
      && |u| == |t| + 1 && u[|t|] == node
  {
    hide TreeOk, Walk, Accounted, AddChild, Clear, Grown, GoodName, Within;
    GoodIsShort(name);
    Vfs.EntryLater(t, d, name);
    WalkSnoc(t, pre, d, name);
    WaysOn(t, pre, way, ways, leaves);
    if FindIn(t, d, name).Some? {
      FoundIsDir(t, pre, way, ways, leaves);
      if !node.Dir? {
        NotWithin(way, pre, ways);
      }
    } else {
      var more := if node.Dir? then leaves else leaves + {way};
      MoreWays(t, ways + {way}, leaves, ways + {way}, more);
      OnWay(way, way, ways);
      AddKeepsAccount(t, d, pre, name, node, ways + {way}, more);
      AddedLength(t, d, name, node);
      AddChildGrows(t, d, name, node);
      WalkKept(t, AddChild(t, d, name, node), 0, pre);
      FoundAfterAdd(t, d, name, node);
      WalkSnoc(AddChild(t, d, name, node), pre, d, name);
    }
  }

  lemma WaysOn(t: Tree, pre: Way, way: Way, ways: set<Way>, leaves: set<Way>)
    requires Accounted(t, ways + {pre}, leaves) && pre <= way
    ensures Accounted(t, ways + {way}, leaves)
  {
    forall cs: Way
      ensures Known(t, ways + {way}, leaves, cs)
    {
      assert Known(t, ways + {pre}, leaves, cs);
      if Walk(t, 0, cs).Some? && cs != [] {
        var w :| w in ways + {pre} && cs <= w;
        assert w in ways || cs <= way;
        assert way in ways + {way};
      }
    }
  }

  lemma FoundIsDir(t: Tree, pre: Way, way: Way, ways: set<Way>, leaves: set<Way>)
    requires Accounted(t, ways + {pre}, leaves) && Walk(t, 0, way).Some? && Walk(t, 0, way).value < |t| && Clear(leaves, way)
    ensures t[Walk(t, 0, way).value].Dir? && Within(way, ways + {pre})
  {
    assert Known(t, ways + {pre}, leaves, way);
    assert way <= way;
  }

  lemma NotWithin(way: Way, pre: Way, ways: set<Way>)
    requires Within(way, ways + {pre}) && |pre| < |way|
    ensures Within(way, ways)
  {
    var w :| w in ways + {pre} && way <= w;
    assert w != pre;
  }

  // ----- A whole archive -----

  predicate Placed(e: Entry) {
    Normal(e.name).Some? && (TypeBits(e.mode) == S_IFDIR || TypeBits(e.mode) == S_IFLNK || TypeBits(e.mode) == S_IFREG || TypeBits(e.mode) == 0)
  }

  predicate Leaf(e: Entry) { Placed(e) && TypeBits(e.mode) != S_IFDIR }

  function WayOf(e: Entry): Way { if Normal(e.name).Some? then Components(Normal(e.name).value) else [] }

  /** An entry the format and the tree can hold. */
  predicate GoodEntry(e: Entry) {
    Encodable(e) && (TypeBits(e.mode) == S_IFLNK ==> e.data != [])
    && (Placed(e) ==> GoodPath(Normal(e.name).value) && |Normal(e.name).value| <= PATH_LIMIT)
  }

  /** Good entries, none of them at or below the path of a file or link of another. */
  ghost predicate WellFormed(entries: seq<Entry>) {
    && (forall i :: 0 <= i < |entries| ==> GoodEntry(entries[i]))
    && (forall i, j :: 0 <= i < |entries| && 0 <= j < |entries| && i != j && Leaf(entries[i]) && Placed(entries[j]) ==>
          !(WayOf(entries[i]) <= WayOf(entries[j])))
  }

  /** The inode an entry stands for. */
  predicate Matches(n: Inode, e: Entry) {
    if TypeBits(e.mode) == S_IFDIR then n.Dir?
    else if TypeBits(e.mode) == S_IFLNK then n == Symlink(LINK_MODE, CStr(e.data))
    else n == File(if TypeBits(e.mode) == 0 then e.mode + S_IFREG else e.mode, e.data)
  }

  /** The way of the entry leads to its inode. */
  predicate Present(t: Tree, e: Entry) {
    Placed(e) ==> Walk(t, 0, WayOf(e)).Some? && Walk(t, 0, WayOf(e)).value < |t| && Matches(t[Walk(t, 0, WayOf(e)).value], e)
  }

  ghost function Ways(entries: seq<Entry>, n: nat): set<Way>
    requires n <= |entries|
  {
    set i | 0 <= i < n && Placed(entries[i]) :: WayOf(entries[i])
  }

  ghost function Leaves(entries: seq<Entry>, n: nat): set<Way>
    requires n <= |entries|
  {
    set i | 0 <= i < n && Leaf(entries[i]) :: WayOf(entries[i])
  }

  lemma PresentKept(t: Tree, u: Tree, e: Entry)
    requires Grown(t, u) && Present(t, e)
    ensures Present(u, e)
  {
    if Placed(e) {
      WalkKept(t, u, 0, WayOf(e));
      assert GrownInode(t[Walk(t, 0, WayOf(e)).value], u[Walk(t, 0, WayOf(e)).value]);
    }
  }

  /** Installing entry `k` of a well-formed list after those before it. */
  lemma InstallWorks(t: Tree, entries: seq<Entry>, k: nat)
    requires WellFormed(entries) && k < |entries| && TreeOk(t) && Accounted(t, Ways(entries, k), Leaves(entries, k))
    ensures var m := InstallEntry(t, entries[k]);
      m.rc == 0 && TreeOk(m.t) && Grown(t, m.t) && Present(m.t, entries[k])
      && Accounted(m.t, Ways(entries, k + 1), Leaves(entries, k + 1))
  {
    hide TreeOk, Grown, Accounted, Walk, Components, Normal, Enter, GoodPath, Clear, Within;
    var e := entries[k];
    var ways, leaves := Ways(entries, k), Leaves(entries, k);
    NextWays(entries, k);
    GrownRefl(t);
    if Placed(e) {
      var path, way := Normal(e.name).value, WayOf(e);
      NothingInTheWay(entries, k);
      var mode := if TypeBits(e.mode) == 0 then e.mode + S_IFREG else e.mode;
      var node := if TypeBits(e.mode) == S_IFDIR then Dir(e.mode, [])
                  else if TypeBits(e.mode) == S_IFLNK then Symlink(LINK_MODE, CStr(e.data))
                  else File(mode, e.data);
      EnterWorks(t, path, node, if node.Dir? then 0 else -1, ways, leaves);
    }
  }

  lemma NextWays(entries: seq<Entry>, k: nat)
    requires k < |entries|
    ensures Ways(entries, k + 1) == if Placed(entries[k]) then Ways(entries, k) + {WayOf(entries[k])} else Ways(entries, k)
    ensures Leaves(entries, k + 1) == if Leaf(entries[k]) then Leaves(entries, k) + {WayOf(entries[k])} else Leaves(entries, k)
  {
  }

  lemma NothingInTheWay(entries: seq<Entry>, k: nat)
    requires WellFormed(entries) && k < |entries| && Placed(entries[k])
    ensures Clear(Leaves(entries, k), WayOf(entries[k]))
    ensures Leaf(entries[k]) ==> !Within(WayOf(entries[k]), Ways(entries, k))
  {
  }

  /** Every entry of a well-formed list goes in, and all of them are there in the end. */
  lemma {:induction false} AllInstalled(t: Tree, entries: seq<Entry>, k: nat)
    requires WellFormed(entries) && k <= |entries| && TreeOk(t) && Accounted(t, Ways(entries, k), Leaves(entries, k))
    requires forall i :: 0 <= i < k ==> Present(t, entries[i])
    ensures var m := InstallAll(t, entries[k..]);
      m.rc == 0 && TreeOk(m.t) && forall i :: 0 <= i < |entries| ==> Present(m.t, entries[i])
    decreases |entries| - k
  {
    hide WellFormed, TreeOk, Accounted, Ways, Leaves, Present, InstallEntry, Grown;
    if k < |entries| {
      assert entries[k..][1..] == entries[k + 1..] && entries[k..][0] == entries[k];
      InstallWorks(t, entries, k);
      var u := InstallEntry(t, entries[k]).t;
      forall i | 0 <= i < k
        ensures Present(u, entries[i])
      {
        PresentKept(t, u, entries[i]);
      }
      AllInstalled(u, entries, k + 1);
    }
  }

  // ----- What an entry makes, and what stops a loader -----

  /**
    What an entry makes at a path that is free, by the type bits of its mode: a directory,
    a link to the text up to its first NUL, or a file, which is what an entry without type
    becomes. An empty link is an error, and every other type is skipped.
   */
  lemma InstallMakes(t: Tree, path: Str, mode: nat, data: seq<byte>)
    requires TreeOk(t) && NoNul(path) && |path| <= 511 && LookupNoFollow(t, path).None? && Enterable(t, path)
    ensures var kind, m := mode / 4096 % 16, Install(t, path, mode, data);
      && (kind == 4 ==> MadeAnew(t, m, path, Dir(mode, [])))
      && (kind == 10 && data != [] ==> MadeAnew(t, m, path, Symlink(0xA1FF, CStr(data))))
      && (kind == 10 && data == [] ==> m == Made(t, -1))
      && (kind == 8 ==> MadeAnew(t, m, path, File(mode, data)))
      && (kind == 0 ==> MadeAnew(t, m, path, File(mode + 0x8000, data)))
      && (kind != 4 && kind != 10 && kind != 8 && kind != 0 ==> m == Made(t, 0))
  {
    hide TreeOk, LookupNoFollow, Enterable, MadeAnew, Mkdir, Create, SymlinkAt;
    NewName(t, path, mode, data, CStr(data));
    NewName(t, path, mode + 0x8000, data, []);
    KindOf(mode);
  }

  lemma KindOf(mode: nat)
    ensures TypeBits(mode) == mode / 4096 % 16 * 4096
  {
  }

  /** What both loaders refuse: another magic, an empty name, and a header, name or contents that reach past the end. */
  lemma BadRecordRefused(t: Tree, image: seq<byte>, base: nat, k: nat)
    requires base % 4 == 0 && base + |image| + 3 < LIMIT32 && k <= |image|
    requires k + 110 <= |image| && image[k..k + 6] == Ascii("070701") ==>
      var n := ParseHex(image[k + 94..k + 102]);
      n == 0 || k + 110 + n > |image|
      || (!IsTrailer(image[k + 110..k + 110 + n]) && (k + 110 + n + 3) / 4 * 4 + ParseHex(image[k + 54..k + 62]) > |image|)
    ensures LoadPhys(t, image, k) == Outcome(t, -1) == LoadPointer(t, image, base, base + k)
  {
    hide IsTrailer, ParseHex, PhysStep, PointerStep;
    TextsSpelled();
    PhysUnfold(t, image, k);
    PointerUnfold(t, image, base, base + k);
    if k + HEADER <= |image| {
      BadStep(image, base, k);
    }
  }

  lemma BadStep(image: seq<byte>, base: nat, k: nat)
    requires base % 4 == 0 && base + |image| + 3 < LIMIT32 && k + HEADER <= |image|
    requires image[k..k + 6] == MAGIC ==>
      var n := ParseHex(image[k + 94..k + 102]);
      n == 0 || k + 110 + n > |image|
      || (!IsTrailer(image[k + 110..k + 110 + n]) && (k + 110 + n + 3) / 4 * 4 + ParseHex(image[k + 54..k + 62]) > |image|)
    ensures PhysStep(image, k) == Fail == PointerStep(image, base, base + k)
  {
    hide IsTrailer, ParseHex, PointerStep, CStr, Normal;
    PointerOffsets(image, base, k);
  }

  /** The loader that copies from physical memory refuses names of more than 4096 bytes besides. */
  lemma LongNameRefused(t: Tree, image: seq<byte>, k: nat)
    requires |image| + 3 < LIMIT32 && k + 110 <= |image| && ParseHex(image[k + 94..k + 102]) > 4096
    ensures LoadPhys(t, image, k) == Outcome(t, -1)
  {
    hide ParseHex;
    PhysUnfold(t, image, k);
  }

  /** A file or a link at a path that exists stops both loaders, with what was loaded before it in place. */
  lemma DuplicateStops(t: Tree, image: seq<byte>, base: nat, k: nat, path: Str)
    requires TreeOk(t) && base % 4 == 0 && base + |image| + 3 < LIMIT32 && k + HEADER <= |image|
    requires PhysStep(image, k).Item? && PhysStep(image, k).path == Some(path) && NoNul(path) && |path| <= 511
    requires PhysStep(image, k).mode / 4096 % 16 in {0, 8, 10} && LookupNoFollow(t, path).Some? && Components(path) != []
    ensures LoadPhys(t, image, k) == Outcome(t, -1) == LoadPointer(t, image, base, base + k)
  {
    hide TreeOk, LookupNoFollow, PhysStep, PointerStep, Components, Enter;
    var s := PhysStep(image, k);
    KindOf(s.mode);
    ExistingName(t, path, s.mode, s.data, CStr(s.data));
    ExistingName(t, path, s.mode + S_IFREG, s.data, []);
    PhysUnfold(t, image, k);
    PointerUnfold(t, image, base, base + k);
    TurnsAgree(image, base, k);
  }
}
