/**
  After a copying clone: over any run of later mappings, unmappings and window uses,
  each address space sees its own changes of the pages that were user pages.
 */
module CloneRuns {
  import opened Frames
  import opened PageTables
  import opened Paging
  import opened CloneSpec
  import opened CloneDirect
  import opened Clone
  import Paths

  /**
    What happens in the parent or in the child: a page entered or removed, or something
    that changes at most the window and which frames are used.
   */
  datatype Deed = Enter(child: bool, q: Page, e: Entry) | Remove(child: bool, q: Page) | Other

  function Space(src: Frame, dst: Frame, child: bool): Frame { if child then dst else src }

  /** Only which frames are used may differ. */
  predicate SameTables(a: Vm, b: Vm) { b.ts == a.ts && b.place == a.place }

  /** The deed `x` leads from `a` to `b`. */
  ghost predicate Step(a: Vm, b: Vm, src: Frame, dst: Frame, x: Deed) {
    Good(a) && Good(b) &&
    match x
    case Enter(child, q, e) =>
      var s := Space(src, dst, child);
      && Extends(a, b) && OnlyPage(a, b, q) && (HasPt(a.ts, s, q) ==> b == StoreAt(a, s, q, e))
      && Walk(b.ts, s, q) == LeafMapping(e, UpperUserAfter(a.ts, s, q, true))
    case Remove(child, q) =>
      var s := Space(src, dst, child);
      if HasPt(a.ts, s, q) then b == StoreAt(a, s, q, ZERO) && OnlyPage(a, b, q) && Extends(a, b) else SameTables(a, b)
    case Other => SameTables(a, b) || (Extends(a, b) && OnlyWindow(a, b))
  }

  /** The states that a run of deeds goes through. */
  ghost predicate Run(vs: seq<Vm>, src: Frame, dst: Frame, xs: seq<Deed>) {
    |vs| == |xs| + 1 && forall i :: 0 <= i < |xs| ==> Step(vs[i], vs[i + 1], src, dst, xs[i])
  }

  /** The entry that a deed stores for page `p` of the child, or of the parent. */
  function Stored(x: Deed, child: bool, p: Page): Paths.Option<Entry> {
    match x
    case Enter(c, q, e) => if c == child && q == p then Paths.Some(e) else Paths.None
    case Remove(c, q) => if c == child && q == p then Paths.Some(ZERO) else Paths.None
    case Other => Paths.None
  }

  /** The last one of a run. */
  function LastOf(xs: seq<Deed>, child: bool, p: Page): Paths.Option<Entry>
    decreases |xs|
  {
    if xs == [] then Paths.None
    else if LastOf(xs[1..], child, p).Some? then LastOf(xs[1..], child, p)
    else Stored(xs[0], child, p)
  }

  /** The page was open to user mode in the parent when it was cloned. */
  predicate WasUser(ts0: Tables, src: Frame, q: Page) { UserPage(Walk(ts0, src, q)) && !IsWindow(q) }

  /** Both spaces have a page table of their own for page `q`, and only the child reaches that of the child. */
  ghost predicate OwnTables(v: Vm, src: Frame, dst: Frame, q: Page) {
    HasPt(v.ts, src, q) && HasPt(v.ts, dst, q) && Private(v, PtOf(v.ts, dst, q), dst)
  }

  ghost predicate Separate(v: Vm, ts0: Tables, src: Frame, dst: Frame) {
    && Good(v) && IsRoot(v.place, src) && IsRoot(v.place, dst) && src != dst
    && forall q :: WasUser(ts0, src, q) ==> OwnTables(v, src, dst, q)
  }

  /** A page open to user mode has a page table: no 2 MiB page is open to user mode. */
  lemma UserHasPt(v: Vm, r: Frame, q: Page)
    requires Good(v) && IsRoot(v.place, r) && UserPage(Walk(v.ts, r, q))
    ensures HasPt(v.ts, r, q)
  {
    Basics(v);
    EntryAt(v, r, q.i4);
    var e4 := At(v.ts, r, q.i4);
    EntryAt(v, e4.frame, q.i3);
    var e3 := At(v.ts, e4.frame, q.i3);
    EntryAt(v, e3.frame, q.i2);
  }

  lemma CloneIsSeparate(a: Vm, da: map<Frame, Bytes>, b: Vm, db: map<Frame, Bytes>, src: Frame, dst: Frame)
    requires Good(a) && Good(b) && IsRoot(a.place, src) && Cloned(a, da, b, db, src, dst)
    ensures Separate(b, a.ts, src, dst)
  {
    hide Good, Walk, HasPt, Private;
    Basics(a);
    forall q | WasUser(a.ts, src, q)
      ensures OwnTables(b, src, dst, q)
    {
      assert CopiedPage(a, da, b, db, src, dst, q);
      assert Walk(b.ts, src, q) == Walk(a.ts, src, q);
      UserHasPt(b, src, q);
    }
  }

  // ----- One deed -----

  /** What growth of the tables leaves: page tables, who reaches them, and the user bits above them. */
  lemma GrowthKeeps(v: Vm, w: Vm, ts0: Tables, src: Frame, dst: Frame)
    requires Separate(v, ts0, src, dst) && Good(w) && Extends(v, w)
    ensures Separate(w, ts0, src, dst)
    ensures forall q, child :: WasUser(ts0, src, q) ==>
      UpperUser(w.ts, Space(src, dst, child), q) == UpperUser(v.ts, Space(src, dst, child), q)
  {
    hide Good, Walk, HasPt, PtOf, UpperUser, WasUser, Extends;
    Linked(v, w);
    forall q | WasUser(ts0, src, q)
      ensures OwnTables(w, src, dst, q) && UpperUser(w.ts, src, q) == UpperUser(v.ts, src, q) && UpperUser(w.ts, dst, q) == UpperUser(v.ts, dst, q)
    {
      assert OwnTables(v, src, dst, q);
      HasPtKept(v, w, src, q);
      HasPtKept(v, w, dst, q);
      PrivateKept(v, w, dst, PtOf(v.ts, dst, q));
    }
  }

  lemma Linked(v: Vm, w: Vm)
    requires Extends(v, w)
    ensures LinksKept(v, w) && forall r :: IsRoot(v.place, r) <==> IsRoot(w.place, r)
  {
  }

  lemma PrivateKept(v: Vm, w: Vm, dst: Frame, t: Frame)
    requires Good(v) && Good(w) && Extends(v, w) && Private(v, t, dst)
    ensures Private(w, t, dst)
  {
    hide Good, Touches;
    Linked(v, w);
    forall r | IsRoot(w.place, r) && r != dst
      ensures !Touches(w.ts, w.place, r, t)
    {
      if Touches(w.ts, w.place, r, t) {
        TouchesBack(v, w, r, t);
      }
    }
  }

  /** One deed keeps the spaces separate. */
  lemma StepKeeps(v: Vm, w: Vm, ts0: Tables, src: Frame, dst: Frame, x: Deed)
    requires Separate(v, ts0, src, dst) && Step(v, w, src, dst, x)
    ensures Separate(w, ts0, src, dst)
    ensures forall q, child :: WasUser(ts0, src, q) ==>
      UpperUser(w.ts, Space(src, dst, child), q) == UpperUser(v.ts, Space(src, dst, child), q)
  {
    hide Good, Walk, HasPt, PtOf, UpperUser, WasUser, Extends, Private;
    if Extends(v, w) {
      GrowthKeeps(v, w, ts0, src, dst);
    } else {
      forall q | WasUser(ts0, src, q)
        ensures OwnTables(w, src, dst, q)
      {
        assert OwnTables(v, src, dst, q);
        SamePrivate(v, w, PtOf(v.ts, dst, q), dst);
      }
    }
  }

  lemma SamePrivate(v: Vm, w: Vm, t: Frame, dst: Frame)
    requires SameTables(v, w) && Private(v, t, dst)
    ensures Private(w, t, dst)
  {
  }

  /** A store into the own page table of a page shows in its own space, at its own page, and nowhere in the other. */
  lemma StoreShows(v: Vm, ts0: Tables, src: Frame, dst: Frame, own: bool, q: Page, e: Entry, child: bool, p: Page)
    requires Separate(v, ts0, src, dst) && WasUser(ts0, src, q)
    ensures var w, s := StoreAt(v, Space(src, dst, own), q, e), Space(src, dst, child);
      Walk(w.ts, s, p) == if own == child && p == q then LeafMapping(e, UpperUser(v.ts, s, p)) else Walk(v.ts, s, p)
  {
    hide Walk, WasUser;
    assert OwnTables(v, src, dst, q);
    HasPtPlace(v, src, q);
    HasPtPlace(v, dst, q);
    LeafOne(v.ts, v.place, v.used, PtOf(v.ts, Space(src, dst, own), q), q.i1, e, Space(src, dst, child), p);
    assert !Touches(v.ts, v.place, src, PtOf(v.ts, dst, q));
  }

  /** One deed, seen at a page that was a user page: its own space's entry shows, that of the other does not. */
  lemma StepShows(v: Vm, w: Vm, ts0: Tables, src: Frame, dst: Frame, x: Deed, child: bool, p: Page)
    requires Separate(v, ts0, src, dst) && Step(v, w, src, dst, x) && WasUser(ts0, src, p)
    ensures var s := Space(src, dst, child);
      Walk(w.ts, s, p) == if Stored(x, child, p).Some? then LeafMapping(Stored(x, child, p).value, UpperUser(v.ts, s, p)) else Walk(v.ts, s, p)
  {
    hide Good, Walk, Extends, UpperUser, HasPt, UpperUserAfter, LeafMapping, StoreAt;
    assert OwnTables(v, src, dst, p);
    match x {
      case Enter(own, q, e) =>
        if q == p {
          StoreShows(v, ts0, src, dst, own, q, e, child, p);
        }
      case Remove(own, q) =>
        if q == p {
          StoreShows(v, ts0, src, dst, own, q, ZERO, child, p);
        }
      case Other =>
    }
  }

  // ----- Runs -----

  lemma RunTail(vs: seq<Vm>, src: Frame, dst: Frame, xs: seq<Deed>)
    requires Run(vs, src, dst, xs) && xs != []
    ensures Run(vs[1..], src, dst, xs[1..]) && Step(vs[0], vs[1], src, dst, xs[0])
  {
    hide Step;
    forall i | 0 <= i < |xs| - 1
      ensures Step(vs[1..][i], vs[1..][i + 1], src, dst, xs[1..][i])
    {
      assert Step(vs[i + 1], vs[i + 2], src, dst, xs[i + 1]);
    }
  }

  /**
    Over any run of deeds at any pages, in parent and child in any order, each space
    translates every page that was a user page as its own last deed there says, and as
    before where it has none.
   */
  lemma {:induction false} OwnDeedsOnly(vs: seq<Vm>, ts0: Tables, src: Frame, dst: Frame, xs: seq<Deed>, child: bool, p: Page)
    requires Run(vs, src, dst, xs) && Separate(vs[0], ts0, src, dst) && WasUser(ts0, src, p)
    ensures Separate(vs[|xs|], ts0, src, dst)
    ensures var s, last := Space(src, dst, child), LastOf(xs, child, p);
      Walk(vs[|xs|].ts, s, p) ==
        if last.Some? then LeafMapping(last.value, UpperUser(vs[0].ts, s, p)) else Walk(vs[0].ts, s, p)
    decreases |xs|
  {
    hide Separate, Walk, UpperUser, WasUser, Step, Run, LeafMapping, Stored;
    RunLength(vs, src, dst, xs);
    if xs != [] {
      RunTail(vs, src, dst, xs);
      StepKeeps(vs[0], vs[1], ts0, src, dst, xs[0]);
      StepShows(vs[0], vs[1], ts0, src, dst, xs[0], child, p);
      OwnDeedsOnly(vs[1..], ts0, src, dst, xs[1..], child, p);
    }
  }

  lemma RunLength(vs: seq<Vm>, src: Frame, dst: Frame, xs: seq<Deed>)
    requires Run(vs, src, dst, xs)
    ensures |vs| == |xs| + 1
  {
  }

  /** A page that no deed of the run names, outside the window. */
  predicate Untouched(xs: seq<Deed>, p: Page) {
    !IsWindow(p) && forall i :: 0 <= i < |xs| ==> xs[i].Other? || xs[i].q != p
  }

  /** It translates as before in every address space, through all tables that the deeds create on their way. */
  lemma {:induction false} UntouchedStays(vs: seq<Vm>, src: Frame, dst: Frame, xs: seq<Deed>, r: Frame, p: Page)
    requires Run(vs, src, dst, xs) && IsRoot(vs[0].place, r) && Untouched(xs, p)
    ensures Walk(vs[|xs|].ts, r, p) == Walk(vs[0].ts, r, p)
    decreases |xs|
  {
    hide Walk, Step, Run;
    RunLength(vs, src, dst, xs);
    if xs != [] {
      RunTail(vs, src, dst, xs);
      assert xs[0].Other? || xs[0].q != p;
      UntouchedStep(vs[0], vs[1], src, dst, xs[0], r, p);
      assert forall i :: 0 <= i < |xs| - 1 ==> xs[1..][i] == xs[i + 1];
      UntouchedStays(vs[1..], src, dst, xs[1..], r, p);
    }
  }

  lemma UntouchedStep(a: Vm, b: Vm, src: Frame, dst: Frame, x: Deed, r: Frame, p: Page)
    requires Step(a, b, src, dst, x) && IsRoot(a.place, r) && !IsWindow(p) && (x.Other? || x.q != p)
    ensures Walk(b.ts, r, p) == Walk(a.ts, r, p) && IsRoot(b.place, r)
  {
    hide Good, Walk, HasPt, StoreAt;
  }

  /** The clone's isolation: from the state it leaves on, over every run. */
  lemma CloneIsIsolated(a: Vm, da: map<Frame, Bytes>, vs: seq<Vm>, db: map<Frame, Bytes>, src: Frame, dst: Frame,
                        xs: seq<Deed>, child: bool, p: Page)
    requires Run(vs, src, dst, xs) && Good(a) && Good(vs[0]) && IsRoot(a.place, src)
    requires Cloned(a, da, vs[0], db, src, dst) && WasUser(a.ts, src, p)
    ensures var s, last := Space(src, dst, child), LastOf(xs, child, p);
      Walk(vs[|xs|].ts, s, p) ==
        if last.Some? then LeafMapping(last.value, UpperUser(vs[0].ts, s, p)) else Walk(vs[0].ts, s, p)
  {
    hide Good, Cloned, Walk, Separate, UpperUser, Run, WasUser;
    RunLength(vs, src, dst, xs);
    CloneIsSeparate(a, da, vs[0], db, src, dst);
    OwnDeedsOnly(vs, a.ts, src, dst, xs, child, p);
  }

  /** For any other page with a page table: a later entry in one space leaves the other alone if and only if they do not share the table. */
  lemma EntryStaysIff(v: Vm, src: Frame, dst: Frame, q: Page)
    requires Good(v) && IsRoot(v.place, src) && IsRoot(v.place, dst) && HasPt(v.ts, src, q) && HasPt(v.ts, dst, q)
    ensures (forall e :: Walk(StoreAt(v, src, q, e).ts, dst, q) == Walk(v.ts, dst, q)) <==> PtOf(v.ts, src, q) != PtOf(v.ts, dst, q)
  {
    hide Walk;
    HasPtPlace(v, src, q);
    HasPtPlace(v, dst, q);
    var t := PtOf(v.ts, src, q);
    var other := Entry(At(v.ts, t, q.i1).frame + 1, PRESENT);
    forall e
      ensures Walk(StoreAt(v, src, q, e).ts, dst, q) ==
        if t == PtOf(v.ts, dst, q) then LeafMapping(e, UpperUser(v.ts, dst, q)) else Walk(v.ts, dst, q)
    {
      LeafOne(v.ts, v.place, v.used, t, q.i1, e, dst, q);
    }
    assert Walk(StoreAt(v, src, q, other).ts, dst, q) == Walk(v.ts, dst, q) ==> t != PtOf(v.ts, dst, q);
  }

  /**
    The clone of a space that satisfies the condition for direct copies satisfies it as
    well, so a child can be cloned in turn.
   */
  lemma ChildIsDirect(a: Vm, da: map<Frame, Bytes>, b: Vm, db: map<Frame, Bytes>, src: Frame, dst: Frame, total: nat)
    requires Cloned(a, da, b, db, src, dst) && DirectOk(a, src, total) && UserFramesOk(a, src) && a.used <= b.used
    requires BeyondUsed(a.used, total) && forall f :: f in b.used ==> f < MAX_FRAMES
    requires forall q :: IsWindow(q) ==> !UserPage(Walk(b.ts, dst, q))
    ensures DirectOk(b, dst, total)
  {
    hide Walk, PageOf, Private, OthersUnharmed, DistinctRange;
    forall f: Frame | MayCopy(b, dst, total, f)
      ensures Direct(b.ts, dst, f)
    {
      if BacksUser(b.ts, dst, f) {
        var q :| UserPage(Walk(b.ts, dst, q)) && Walk(b.ts, dst, q).frame == f;
        assert CopiedPage(a, da, b, db, src, dst, q);
      }
      assert f !in a.used && f < total;
      assert MayCopy(a, src, total, f) && Direct(a.ts, src, f);
      assert CopiedPage(a, da, b, db, src, dst, PageOf(f * PAGE_SIZE));
    }
  }

  /** No page below the limit that is open to user mode maps, at its own address, the frame of a page whose links are closed. */
  ghost predicate ClosedApart(v: Vm, root: Frame) {
    forall q :: UserLeaf(Walk(v.ts, root, q)) && !UserPage(Walk(v.ts, root, q)) && Walk(v.ts, root, q).frame * PAGE_SIZE < IDENTITY_MAP_LIMIT ==>
      !UserPage(Walk(v.ts, root, PageOf(Walk(v.ts, root, q).frame * PAGE_SIZE)))
  }

  /** A child is as ready to be cloned as its parent was. */
  lemma ChildIsReady(a: Vm, da: map<Frame, Bytes>, b: Vm, db: map<Frame, Bytes>, src: Frame, dst: Frame, total: nat)
    requires Good(a) && Good(b) && Cloned(a, da, b, db, src, dst) && LeavesOwned(a, src) && AllDirect(a, src, total) && ClosedApart(a, src)
    requires BeyondUsed(a.used, total) && forall f :: f in b.used ==> f < MAX_FRAMES
    requires forall q :: IsWindow(q) ==> !UserLeaf(Walk(b.ts, dst, q))
    ensures LeavesOwned(b, dst) && AllDirect(b, dst, total)
  {
    hide Walk, PageOf, Private, DistinctRange, Good, Direct;
    Basics(a);
    Basics(b);
    forall q
      ensures LeafOwned(b, Walk(b.ts, dst, q)) && LeafDirect(b.ts, dst, Walk(b.ts, dst, q))
    {
      if !IsWindow(q) {
        assert CopiedPage(a, da, b, db, src, dst, q) && LeafOwned(a, Walk(a.ts, src, q)) && LeafDirect(a.ts, src, Walk(a.ts, src, q));
        var m := Walk(b.ts, dst, q);
        if UserLeaf(m) && m.frame * PAGE_SIZE < IDENTITY_MAP_LIMIT {
          OpenIsLeaf(a.ts, src, q);
          if UserPage(Walk(a.ts, src, q)) {
            FreeInChild(a, da, b, db, src, dst, total, m.frame);
          } else {
            SameInChild(a, da, b, db, src, dst, m.frame);
          }
        }
      }
    }
    forall f: nat
      ensures FreeDirect(b, dst, total, f)
    {
      if f !in b.used && f < total && f * PAGE_SIZE < IDENTITY_MAP_LIMIT {
        FreeInChild(a, da, b, db, src, dst, total, f);
      }
    }
  }

  /** A frame that was free is mapped at its own address in the child as in the parent. */
  lemma FreeInChild(a: Vm, da: map<Frame, Bytes>, b: Vm, db: map<Frame, Bytes>, src: Frame, dst: Frame, total: nat, f: Frame)
    requires Cloned(a, da, b, db, src, dst) && LeavesOwned(a, src) && AllDirect(a, src, total)
    requires f !in a.used && f < total && f * PAGE_SIZE < IDENTITY_MAP_LIMIT
    ensures Direct(b.ts, dst, f)
  {
    hide Walk, PageOf, Private, DistinctRange;
    var p := PageOf(f * PAGE_SIZE);
    assert FreeDirect(a, src, total, f) && LeafOwned(a, Walk(a.ts, src, p));
    PageNumber(f);
    OpenIsLeaf(a.ts, src, p);
    SameInChild(a, da, b, db, src, dst, f);
  }

  lemma SameInChild(a: Vm, da: map<Frame, Bytes>, b: Vm, db: map<Frame, Bytes>, src: Frame, dst: Frame, f: Frame)
    requires Cloned(a, da, b, db, src, dst) && f * PAGE_SIZE < IDENTITY_MAP_LIMIT && Direct(a.ts, src, f)
    requires !UserPage(Walk(a.ts, src, PageOf(f * PAGE_SIZE)))
    ensures Direct(b.ts, dst, f)
  {
    hide Walk, PageOf, Private, DistinctRange, OthersUnharmed;
    assert CopiedPage(a, da, b, db, src, dst, PageOf(f * PAGE_SIZE));
  }

  // ----- The operations are deeds -----

  /** Mapping a page for user mode in the current space. */
  method MapUserPage(m: Machine, ghost src: Frame, ghost dst: Frame, ghost child: bool, virt: U64, phys: U64, flags: Flags)
    returns (ok: bool)
    requires m.Valid() && m.pml4 == Space(src, dst, child)
    modifies m`tables, m`place, m.frames.bits, m.frames`used
    ensures m.Valid() && Extends(old(m.State()), m.State())
    ensures Step(old(m.State()), m.State(), src, dst,
                 if ok then Enter(child, PageOf(virt), Entry(FrameOf(phys), flags.(user := true))) else Other)
  {
    hide Good, Extends, Walk, HasPt, UpperUserAfter, StoreAt, LeafMapping, PageOf, FrameOf;
    ghost var s0 := m.State();
    ok := m.MapUserPage(virt, phys, flags);
    if !ok {
      SameIsOnlyWindow(s0, m.State());
    }
  }

  /** Unmapping a page in the current space. */
  method UnmapPage(m: Machine, ghost src: Frame, ghost dst: Frame, ghost child: bool, virt: U64)
    requires m.Valid() && m.pml4 == Space(src, dst, child)
    modifies m`tables
    ensures m.Valid() && Extends(old(m.State()), m.State())
    ensures Step(old(m.State()), m.State(), src, dst, Remove(child, PageOf(virt)))
  {
    hide Good, Extends, Walk, HasPt, StoreAt, PageOf;
    m.UnmapPage(virt);
  }
}
