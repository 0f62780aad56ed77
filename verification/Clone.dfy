/**
  `paging_clone_current_address_space` and its helpers: kernel entries are
  shared, pages open to user mode are copied to fresh frames.
 */
module Clone {
  import opened Frames
  import opened PageTables
  import opened Paging
  import opened CloneSpec
  import opened CloneDirect
  import opened CloneStores

  lemma UserFramesKept(a: Vm, b: Vm, src: Frame)
    requires Good(a) && Good(b) && UserFramesOk(a, src) && Extends(a, b) && SourceKept(a, b, src)
    ensures UserFramesOk(b, src)
  {
    NewTablesWereFree(a, b);
    forall q | UserPage(Walk(b.ts, src, q))
      ensures Walk(b.ts, src, q) == Walk(a.ts, src, q)
    {
    }
  }

  /** Growth outside the window is a step of a clone that touches no page number. */
  lemma ExtendsIsStep(a: Vm, da: map<Frame, Bytes>, b: Vm, db: map<Frame, Bytes>, dst: Frame, lo: nat, hi: nat)
    requires Good(a) && Good(b) && Extends(a, b) && OnlyWindow(a, b) && DataKept(a.used, da, db)
    ensures CloneStep(a, da, b, db, dst, lo, hi)
  {
    forall t | Private(a, t, dst)
      ensures Private(b, t, dst)
    {
      forall r | IsRoot(b.place, r) && r != dst
        ensures !Touches(b.ts, b.place, r, t)
      {
        if Touches(b.ts, b.place, r, t) {
          TouchesBack(a, b, r, t);
        }
      }
    }
  }

  lemma FrameOfFrame(f: Frame)
    requires f < 0x100_0000_0000
    ensures FrameOf(f * PAGE_SIZE) == f
  {
  }

  lemma WindowPages()
    ensures PageOf(WINDOW) == Page(0, 0, 40, 0) && PageOf(WINDOW + PAGE_SIZE) == Page(0, 0, 40, 1)
  {
  }

  lemma HasPtKeptByGrowth(a: Vm, b: Vm, r: Frame, p: Page)
    requires Good(a) && Extends(a, b) && IsRoot(a.place, r) && HasPt(a.ts, r, p)
    ensures HasPt(b.ts, r, p)
  {
    HasPtKept(a, b, r, p);
  }

  /** Mapping the second window page leaves the first one, and its page table, in place. */
  lemma SecondMapKeepsFirst(a: Vm, b: Vm, r: Frame)
    requires Good(a) && Extends(a, b) && IsRoot(a.place, r) && OnlyPage(a, b, Page(0, 0, 40, 1))
    requires HasPt(a.ts, r, Page(0, 0, 40, 0))
    ensures Walk(b.ts, r, Page(0, 0, 40, 0)) == Walk(a.ts, r, Page(0, 0, 40, 0))
    ensures HasPt(b.ts, r, Page(0, 0, 40, 0))
  {
    HasPtKept(a, b, r, Page(0, 0, 40, 0));
  }

  lemma BothUnmapped(a: Vm, b: Vm, c: Vm, r: Frame)
    requires Good(a) && Good(c) && Extends(a, c) && OnlyWindow(a, c) && IsRoot(a.place, r)
    requires IsRoot(b.place, r) && Walk(b.ts, r, Page(0, 0, 40, 0)) == Unmapped
    requires OnlyPage(b, c, Page(0, 0, 40, 1)) && Walk(c.ts, r, Page(0, 0, 40, 1)) == Unmapped
    ensures SourceKept(a, c, r)
  {
    NewTablesWereFree(a, c);
    forall q
      ensures Walk(c.ts, r, q) == Walk(a.ts, r, q) || (IsWindow(q) && Walk(c.ts, r, q) == Unmapped)
    {
    }
  }

  /** Mapping the first window page, failing to map the second, and unmapping the first again. */
  lemma FirstUnmapped(a: Vm, b: Vm, c: Vm, d: Vm, r: Frame)
    requires Good(a) && Good(d) && Extends(a, d) && IsRoot(a.place, r) && IsRoot(b.place, r) && IsRoot(c.place, r)
    requires OnlyPage(a, b, Page(0, 0, 40, 0)) && SameWalks(b, c) && OnlyPage(c, d, Page(0, 0, 40, 0))
    requires Walk(d.ts, r, Page(0, 0, 40, 0)) == Unmapped
    ensures SourceKept(a, d, r)
  {
    NewTablesWereFree(a, d);
    forall q
      ensures Walk(d.ts, r, q) == Walk(a.ts, r, q) || (IsWindow(q) && Walk(d.ts, r, q) == Unmapped)
    {
    }
  }

  /** What mapping and unmapping pages of the window leaves of the address spaces. */
  ghost predicate Through(a: Vm, b: Vm, root: Frame) { Extends(a, b) && OnlyWindow(a, b) && KeepsOthers(a, b, root) && IsRoot(b.place, root) }

  lemma ThroughPage(a: Vm, b: Vm, root: Frame, p: Page)
    requires Extends(a, b) && KeepsOthers(a, b, root) && IsRoot(a.place, root) && IsWindow(p) && (OnlyPage(a, b, p) || SameWalks(a, b))
    ensures Through(a, b, root)
  {
    hide Extends, KeepsOthers, OnlyPage, SameWalks, OnlyWindow;
    PlaceKept(a, b, root);
    if OnlyPage(a, b, p) {
      OnlyPageIsOnlyWindow(a, b, p);
    } else {
      SameIsOnlyWindow(a, b);
    }
  }

  lemma ThroughChain(a: Vm, b: Vm, c: Vm, root: Frame)
    requires Good(a) && Good(b) && IsRoot(a.place, root) && Through(a, b, root) && Through(b, c, root)
    ensures Through(a, c, root) && a.used <= c.used
  {
    hide Good, Extends, KeepsOthers, OnlyWindow;
    ChainWindow(a, b, c);
    OthersTransitive(a, b, c, root);
    MoreTables(a, c);
  }

  lemma MoreTables(a: Vm, b: Vm)
    requires Extends(a, b)
    ensures a.used <= b.used
  {
  }

  /** Maps one of the two window pages to frame `f`. */
  method MapWindowPage(m: Machine, virt: U64, f: Frame, flags: Flags) returns (ok: bool)
    requires m.Valid() && f < 0x100_0000_0000 && flags.present && !flags.user
    requires virt == WINDOW || virt == WINDOW + PAGE_SIZE
    modifies m`tables, m`place, m.frames.bits, m.frames`used
    ensures m.Valid() && Through(old(m.State()), m.State(), m.pml4)
    ensures !ok ==> m.NoFreeTable() && SameWalks(old(m.State()), m.State())
    ensures ok ==> OnlyPage(old(m.State()), m.State(), PageOf(virt)) && HasPt(m.tables, m.pml4, PageOf(virt))
    ensures ok ==>
      Walk(m.tables, m.pml4, PageOf(virt)) == Mapped(f, flags.(huge := false), false, flags.writable, flags.nx)
  {
    hide Good, Extends, SameWalks, OnlyPage, KeepsOthers, Walk, HasPt, UpperUserAfter, FrameOf, PageOf, Through, LeafMapping, Machine.NoFreeTable;
    ghost var s0 := m.State();
    FrameOfFrame(f);
    WindowPages();
    ok := m.MapPage(virt, f * PAGE_SIZE, flags);
    ThroughPage(s0, m.State(), m.pml4, PageOf(virt));
  }

  /** Copies frame `src` to frame `dst` through the two window pages. */
  method CopyThroughWindow(m: Machine, dst: Frame, src: Frame) returns (ok: bool)
    requires m.Valid() && dst < 0x100_0000_0000 && src < 0x100_0000_0000
    requires dst in m.frames.used && dst !in m.tables && src in m.frames.used && src !in m.tables
    modifies m`tables, m`place, m`data, m.frames.bits, m.frames`used
    ensures m.Valid() && Extends(old(m.State()), m.State()) && OnlyWindow(old(m.State()), m.State())
    ensures KeepsOthers(old(m.State()), m.State(), m.pml4)
    ensures SourceKept(old(m.State()), m.State(), m.pml4)
    ensures m.data == if ok then old(m.data)[dst := Content(old(m.data), src)] else old(m.data)
    ensures !ok ==> m.NoFreeTable()
  {
    hide Good, Extends, SameWalks, OnlyPage, OnlyWindow, KeepsOthers, SourceKept, Walk, HasPt, PageOf, StoreAt, Through;
    hide Machine.NoFreeTable, Content;
    ghost var s0 := m.State();
    WindowPages();
    ok := MapWindowPage(m, WINDOW, src, PRESENT);
    ghost var s1 := m.State();
    ThroughMeans(s0, s1, m.pml4);
    NewTablesWereFree(s0, s1);
    if !ok {
      SameIsKept(s0, s1, m.pml4);
      return;
    }
    ok := MapWindowPage(m, WINDOW + PAGE_SIZE, dst, PRESENT_WRITABLE);
    ghost var s2 := m.State();
    ThroughMeans(s1, s2, m.pml4);
    NewTablesWereFree(s1, s2);
    ThroughChain(s0, s1, s2, m.pml4);
    if !ok {
      m.UnmapPage(WINDOW);
      ThroughPage(s2, m.State(), m.pml4, PageOf(WINDOW));
      ThroughChain(s0, s2, m.State(), m.pml4);
      ThroughMeans(s0, m.State(), m.pml4);
      HasPtKeptByGrowth(s1, s2, m.pml4, PageOf(WINDOW));
      FirstUnmapped(s0, s1, s2, m.State(), m.pml4);
      return;
    }
    SecondMapKeepsFirst(s1, s2, m.pml4);
    HasPtKeptByGrowth(s1, s2, m.pml4, PageOf(WINDOW));
    CopyPage(m, WINDOW, WINDOW + PAGE_SIZE, dst, src);
    UnmapWindow(m, s0);
  }

  /** Copies the page at virtual address `from`, which is frame `src`, to the page at `to`, which is frame `dst`. */
  method CopyPage(m: Machine, from: U64, to: U64, ghost dst: Frame, ghost src: Frame)
    requires from % PAGE_SIZE == 0 && to % PAGE_SIZE == 0 && src !in m.tables && dst !in m.tables
    requires var w := Walk(m.tables, m.pml4, PageOf(from)); w.Mapped? && w.frame == src
    requires var w := Walk(m.tables, m.pml4, PageOf(to)); w.Mapped? && w.writable && w.frame == dst
    modifies m`data
    ensures m.data == old(m.data)[dst := Content(old(m.data), src)]
  {
    hide Walk, PageOf;
    var bytes := m.LoadPageVirt(from);
    m.StoreVirt(to, bytes);
    assert Splice(Content(old(m.data), dst), 0, bytes) == bytes;
  }

  /** Unmaps both window pages, at the end of a use of the window that began in state `s0`. */
  method UnmapWindow(m: Machine, ghost s0: Vm)
    requires m.Valid() && Good(s0) && IsRoot(s0.place, m.pml4) && Through(s0, m.State(), m.pml4)
    requires HasPt(m.tables, m.pml4, PageOf(WINDOW)) && HasPt(m.tables, m.pml4, PageOf(WINDOW + PAGE_SIZE))
    modifies m`tables
    ensures m.Valid() && Extends(s0, m.State()) && OnlyWindow(s0, m.State()) && KeepsOthers(s0, m.State(), m.pml4)
    ensures SourceKept(s0, m.State(), m.pml4)
  {
    hide Good, Extends, OnlyPage, OnlyWindow, KeepsOthers, SourceKept, Walk, HasPt, PageOf, StoreAt, Through;
    WindowPages();
    ghost var s2 := m.State();
    m.UnmapPage(WINDOW);
    ghost var s3 := m.State();
    ThroughPage(s2, s3, m.pml4, PageOf(WINDOW));
    ThroughChain(s0, s2, s3, m.pml4);
    HasPtKeptByGrowth(s2, s3, m.pml4, PageOf(WINDOW + PAGE_SIZE));
    m.UnmapPage(WINDOW + PAGE_SIZE);
    ThroughPage(s3, m.State(), m.pml4, PageOf(WINDOW + PAGE_SIZE));
    ThroughChain(s0, s3, m.State(), m.pml4);
    ThroughMeans(s0, m.State(), m.pml4);
    BothUnmapped(s0, s3, m.State(), m.pml4);
  }

  lemma ThroughMeans(a: Vm, b: Vm, root: Frame)
    requires Through(a, b, root)
    ensures Extends(a, b) && OnlyWindow(a, b) && KeepsOthers(a, b, root) && IsRoot(b.place, root)
  {
  }

  predicate CopiesDirectly(dst: Frame, src: Frame) {
    src * PAGE_SIZE < IDENTITY_MAP_LIMIT && dst * PAGE_SIZE < IDENTITY_MAP_LIMIT
  }

  /**
    Copies frame `src` to frame `dst`: below the identity limit at the physical
    addresses of both, elsewhere through the window. `astray` tells of a direct copy
    whose addresses do not lead to the two frames: the processor then faults, or the
    copy uses other frames, and the model follows it no further.
   */
  method CopyFrame(m: Machine, dst: Frame, src: Frame) returns (ok: bool, astray: bool)
    requires m.Valid() && dst < 0x100_0000_0000 && src < 0x100_0000_0000
    requires dst in m.frames.used && dst !in m.tables && src in m.frames.used && src !in m.tables
    modifies m`tables, m`place, m`data, m.frames.bits, m.frames`used
    ensures m.Valid() && Extends(old(m.State()), m.State()) && OnlyWindow(old(m.State()), m.State())
    ensures KeepsOthers(old(m.State()), m.State(), m.pml4)
    ensures SourceKept(old(m.State()), m.State(), m.pml4)
    ensures astray <==> CopiesDirectly(dst, src) && !Straight(old(m.tables), m.pml4, dst, src)
    ensures astray ==> !ok
    ensures !ok && !astray ==> m.NoFreeTable()
    ensures m.data == if ok then old(m.data)[dst := Content(old(m.data), src)] else old(m.data)
  {
    hide Good, Extends, SameWalks, OnlyPage, OnlyWindow, KeepsOthers, SourceKept, Walk, PageOf;
    ghost var s0 := m.State();
    GrowsRefl(s0);
    SameIsOnlyWindow(s0, s0);
    OthersRefl(s0);
    astray := false;
    SourceKeptSame(s0, s0, m.pml4);
    if CopiesDirectly(dst, src) {
      if !Straight(m.tables, m.pml4, dst, src) {
        return false, true;
      }
      PageNumber(src);
      PageNumber(dst);
      CopyPage(m, src * PAGE_SIZE, dst * PAGE_SIZE, dst, src);
      return true, false;
    }
    ok := CopyThroughWindow(m, dst, src);
  }

  // ----- One user page -----

  lemma UserEntryIsUserPage(v: Vm, src: Frame, s: Frame, i: Idx) returns (q: Page)
    requires Good(v) && IsRoot(v.place, src) && s in v.place && v.place[s].Pt? && OpenTo(v, src, s)
    requires At(v.ts, s, i).flags.present && At(v.ts, s, i).flags.user
    ensures Under(v.place[s], i, q) && Walk(v.ts, src, q) == LeafMapping(At(v.ts, s, i), true)
    ensures UserPage(Walk(v.ts, src, q)) && Walk(v.ts, src, q).frame == At(v.ts, s, i).frame
  {
    q := Page(v.place[s].i4, v.place[s].i3, v.place[s].i2, i);
    HasPtPlace(v, src, q);
  }

  /** Taking a free page and copying a frame to it is a step of the clone that touches no page number. */
  lemma TakeAndCopy(v0: Vm, d0: map<Frame, Bytes>, g: Frame, v2: Vm, d2: map<Frame, Bytes>, src: Frame, dst: Frame, lo: nat)
    requires Good(v0) && Good(v2) && IsRoot(v0.place, src) && IsRoot(v0.place, dst) && src != dst && g !in v0.used
    requires Extends(v0.(used := v0.used + {g}), v2) && OnlyWindow(v0.(used := v0.used + {g}), v2)
    requires DataKept(v0.used, d0, d2)
    requires KeepsOthers(v0.(used := v0.used + {g}), v2, src)
    ensures CloneStep(v0, d0, v2, d2, dst, lo, lo)
    ensures forall f, j: Idx :: Private(v0, f, dst) ==> At(v2.ts, f, j) == At(v0.ts, f, j)
  {
    var v1 := v0.(used := v0.used + {g});
    GoodWithMore(v0, {g});
    ExtendsIsStep(v1, d2, v2, d2, dst, lo, lo);
    forall f, j: Idx | Private(v0, f, dst)
      ensures At(v2.ts, f, j) == At(v0.ts, f, j)
    {
      assert !Touches(v0.ts, v0.place, src, f);
    }
    forall t | Private(v0, t, dst)
      ensures Private(v2, t, dst)
    {
      assert Private(v1, t, dst);
    }
  }

  lemma GoodWithMore(v: Vm, more: set<Frame>)
    requires Good(v)
    ensures Good(v.(used := v.used + more))
  {
  }

  /** Storing the entry of the copied frame completes the slot of one user page. */
  lemma FinishPage(v0: Vm, d0: map<Frame, Bytes>, g: Frame, v2: Vm, d2: map<Frame, Bytes>,
                   src: Frame, dst: Frame, s: Frame, t: Frame, i: Idx) returns (b: Vm)
    requires Good(v0) && Good(v2) && Pair(v0, src, dst, s, t) && v0.place[s].Pt? && UserFramesOk(v2, src)
    requires At(v0.ts, s, i).flags.present && At(v0.ts, s, i).flags.user && !At(v0.ts, t, i).flags.present
    requires g !in v0.used && g in v2.used && g !in v2.ts
    requires CloneStep(v0, d0, v2, d2, dst, Lo(v0.place[t], i), Lo(v0.place[t], i))
    requires forall f, j: Idx :: Private(v0, f, dst) ==> At(v2.ts, f, j) == At(v0.ts, f, j)
    requires Content(d2, g) == Content(d0, At(v0.ts, s, i).frame)
    ensures t in v2.ts && b == v2.(ts := Put(v2.ts, t, i, Entry(g, At(v0.ts, s, i).flags)))
    ensures Good(b) && SlotDone(v0, d0, b, d2, src, dst, t, i) && SourceKept(v2, b, src)
  {
    hide Good, UserFramesOk, OpenTo, CloneStep, Private, SourceKept;
    var lo := Lo(v0.place[t], i);
    var e := At(v0.ts, s, i);
    LoGrows(v0.place[t], i);
    PairKept(v0, d0, v2, d2, src, dst, s, t, lo, lo);
    b := PrivateStore(v2, d2, dst, t, i, Entry(g, e.flags));
    StepTransitive(v0, d0, v2, d2, b, d2, dst, lo, lo, Lo(v0.place[t], i + 1));
    SourceUntouched(v2, b, src, dst, t, i);
    PairKept(v2, d2, b, d2, src, dst, s, t, lo, Lo(v0.place[t], i + 1));
    CopiedEntry(v0, d0, b, d2, src, dst, s, t, i, g);
    OneSlot(v0, b, src, dst, v0.place[t], i);
    StoreOnlyEntry(v0, d0, v2, d2, b, dst, t, i, Entry(g, e.flags), lo);
  }

  lemma SourceUntouched(v: Vm, b: Vm, src: Frame, dst: Frame, t: Frame, i: Idx)
    requires Good(v) && IsRoot(v.place, src) && src != dst && t in v.ts && Private(v, t, dst) && UserFramesOk(v, src)
    requires exists e :: b == v.(ts := Put(v.ts, t, i, e))
    ensures UserFramesOk(b, src) && SourceKept(v, b, src)
  {
    forall q
      ensures Walk(b.ts, src, q) == Walk(v.ts, src, q)
    {
      StoreSourceSame(v, b, src, dst, t, i, q);
    }
  }

  lemma StoreOnlyEntry(v0: Vm, d0: map<Frame, Bytes>, v2: Vm, d2: map<Frame, Bytes>, b: Vm,
                       dst: Frame, t: Frame, i: Idx, e: Entry, lo: nat)
    requires CloneStep(v0, d0, v2, d2, dst, lo, lo) && t in v2.ts
    requires forall f, j: Idx :: Private(v0, f, dst) ==> At(v2.ts, f, j) == At(v0.ts, f, j)
    requires b == v2.(ts := Put(v2.ts, t, i, e))
    ensures OnlyEntry(v0, b, dst, t, i)
  {
  }

  /** A single page is trivially free of clashes. */
  lemma OneSlot(v0: Vm, b: Vm, src: Frame, dst: Frame, pl: Place, i: Idx)
    requires pl.Pt?
    ensures DistinctRange(v0, b, src, dst, Lo(pl, i), Lo(pl, i + 1))
  {
    var lo, hi := Lo(pl, i), Lo(pl, i + 1);
    forall p, q | CopiedUser(v0.ts, src, p, lo, hi) && CopiedUser(v0.ts, src, q, lo, hi)
      ensures p == q
    {
      UnderIsInterval(pl, i, p);
      UnderIsInterval(pl, i, q);
    }
  }

  lemma CopiedEntry(v0: Vm, d0: map<Frame, Bytes>, b: Vm, d: map<Frame, Bytes>,
                    src: Frame, dst: Frame, s: Frame, t: Frame, i: Idx, g: Frame)
    requires Good(v0) && Good(b) && Pair(v0, src, dst, s, t) && Pair(b, src, dst, s, t)
    requires v0.place[s].Pt? && b.place[t] == v0.place[t]
    requires At(v0.ts, s, i).flags.present && At(v0.ts, s, i).flags.user
    requires At(b.ts, t, i) == Entry(g, At(v0.ts, s, i).flags)
    requires g !in v0.used && g in b.used && g !in b.ts
    requires Content(d, g) == Content(d0, At(v0.ts, s, i).frame)
    ensures CopiedRange(v0, d0, b, d, src, dst, Lo(v0.place[t], i), Lo(v0.place[t], i + 1))
  {
    hide Good, UserFramesOk, Walk, Private;
    var p := UserEntryIsUserPage(v0, src, s, i);
    HasPtPlace(b, dst, p);
    forall q | Lo(v0.place[t], i) <= Num(q) < Lo(v0.place[t], i + 1)
      ensures q == p
    {
      UnderIsInterval(v0.place[t], i, q);
    }
  }

  lemma PageFrameBound(total: nat, f: nat)
    requires total <= MAX_FRAMES && f < total
    ensures f < 0x100_0000_0000
  {
  }

  /** Giving the fresh page back leaves a step of the clone that touches no page number. */
  lemma GiveBack(v0: Vm, d0: map<Frame, Bytes>, v2: Vm, d2: map<Frame, Bytes>, g: Frame, dst: Frame, lo: nat)
    requires Good(v2) && g !in v0.used && g !in v2.ts && CloneStep(v0, d0, v2, d2, dst, lo, lo)
    ensures Good(v2.(used := v2.used - {g}))
    ensures CloneStep(v0, d0, v2.(used := v2.used - {g}), d2, dst, lo, lo)
  {
    var v3 := v2.(used := v2.used - {g});
    forall t | Private(v0, t, dst)
      ensures Private(v3, t, dst)
    {
      assert Private(v2, t, dst);
    }
  }

  /** Copies the user page behind entry `i` of `srcPt` to a fresh frame and enters it in `dstPt`. */
  method CloneUserPage(m: Machine, dstPt: Frame, srcPt: Frame, i: Idx, ghost dst: Frame) returns (ok: bool, astray: bool)
    requires m.Valid() && Pair(m.State(), m.pml4, dst, srcPt, dstPt) && m.place[srcPt].Pt?
    requires At(m.tables, srcPt, i).flags.present && At(m.tables, srcPt, i).flags.user
    requires !At(m.tables, dstPt, i).flags.present
    modifies m`tables, m`place, m`data, m.frames.bits, m.frames`used
    ensures m.Valid()
    ensures ok ==> SlotDone(old(m.State()), old(m.data), m.State(), m.data, m.pml4, dst, dstPt, i)
    ensures CloneStep(old(m.State()), old(m.data), m.State(), m.data, dst,
                      Lo(old(m.place)[dstPt], i), Lo(old(m.place)[dstPt], i + 1))
    ensures astray ==> !ok && !DirectOk(old(m.State()), m.pml4, m.frames.total)
    ensures !ok && !astray ==> m.NearlyNoTable()
    ensures SourceKept(old(m.State()), m.State(), m.pml4)
  {
    hide Good, UserFramesOk, OpenTo, CloneStep, SlotDone, Private, Walk, Extends, OnlyWindow, KeepsOthers, SourceKept, DirectOk, BacksUser, Straight;
    hide BeyondUsed, Machine.NearlyNoTable;
    ghost var v0, d0, lo := m.State(), m.data, Lo(m.place[dstPt], i);
    ghost var hi := Lo(m.place[dstPt], i + 1);
    LoGrows(m.place[dstPt], i);
    var e := m.tables[srcPt][i];
    StepRefl(v0, d0, dst, lo, hi);
    astray := false;
    SourceKeptSame(v0, v0, m.pml4);
    var page := m.frames.AllocPage();
    if page == 0 {
      NothingFree(m);
      assert m.State() == v0;
      return false, false;
    }
    var g := page / PAGE_SIZE;
    ghost var v1 := m.State();
    assert v1 == v0.(used := v0.used + {g});
    GoodWithMore(v0, {g});
    PageFrameBound(m.frames.total, g);
    SourceFrame(v0, m.pml4, srcPt, i);
    Basics(v0);
    ok, astray := CopyFrame(m, g, e.frame);
    ghost var v2 := m.State();
    TakenStaysStraight(v0, v1, m.pml4, m.frames.total, g, srcPt, i);
    PageTaken(v0, v1, v2, m.pml4, g);
    TakeAndCopy(v0, d0, g, v2, m.data, m.pml4, dst, lo);
    NewTablesWereFree(v1, v2);
    if !ok {
      GiveBack(v0, d0, v2, m.data, g, dst, lo);
      m.FreeFrame(page);
      PageGivenBack(v0, v1, v2, m.pml4, g);
      PlaceKept(v1, v2, m.pml4);
      StepWider(v0, d0, m.State(), m.data, dst, lo, lo, lo, hi);
      return;
    }
    UserFramesMore(v0, m.pml4, g);
    UserFramesKept(v1, v2, m.pml4);
    ghost var b := FinishPage(v0, d0, g, v2, m.data, m.pml4, dst, srcPt, dstPt, i);
    m.tables := Put(m.tables, dstPt, i, Entry(g, e.flags));
    assert m.State() == b;
    SourceKeptChain(v0, v2, b, m.pml4);
    PlaceKept(v1, v2, m.pml4);
    SlotIsStep(v0, d0, b, m.data, m.pml4, dst, dstPt, i);
  }

  /** A copy that went astray shows that the condition did not hold. */
  lemma TakenStaysStraight(v0: Vm, v1: Vm, src: Frame, total: nat, g: Frame, s: Frame, i: Idx)
    requires Good(v0) && IsRoot(v0.place, src) && s in v0.place && v0.place[s].Pt? && OpenTo(v0, src, s)
    requires At(v0.ts, s, i).flags.present && At(v0.ts, s, i).flags.user
    requires g !in v0.used && g < total && v1 == v0.(used := v0.used + {g})
    ensures DirectOk(v0, src, total) && CopiesDirectly(g, At(v0.ts, s, i).frame) ==>
      Straight(v1.ts, src, g, At(v0.ts, s, i).frame)
  {
    hide Good, Walk, DirectOk, Straight;
    var q := UserEntryIsUserPage(v0, src, s, i);
    if DirectOk(v0, src, total) && CopiesDirectly(g, At(v0.ts, s, i).frame) {
      CopyIsStraight(v0, src, total, g, At(v0.ts, s, i).frame);
    }
  }

  lemma PageTaken(v0: Vm, v1: Vm, v2: Vm, src: Frame, g: Frame)
    requires v1 == v0.(used := v0.used + {g}) && SourceKept(v1, v2, src)
    ensures SourceKept(v0, v2, src)
  {
  }

  lemma PageGivenBack(v0: Vm, v1: Vm, v2: Vm, src: Frame, g: Frame)
    requires v1 == v0.(used := v0.used + {g}) && SourceKept(v1, v2, src) && g !in v0.used
    ensures SourceKept(v0, v2.(used := v2.used - {g}), src)
  {
  }

  lemma SlotIsStep(a: Vm, da: map<Frame, Bytes>, b: Vm, db: map<Frame, Bytes>, src: Frame, dst: Frame, d: Frame, i: Idx)
    requires SlotDone(a, da, b, db, src, dst, d, i)
    ensures d in a.place && CloneStep(a, da, b, db, dst, Lo(a.place[d], i), Lo(a.place[d], i + 1))
  {
  }

  lemma UserFramesMore(v: Vm, src: Frame, g: Frame)
    requires UserFramesOk(v, src)
    ensures UserFramesOk(v.(used := v.used + {g}), src)
  {
  }

  lemma SourceFrame(v: Vm, src: Frame, s: Frame, i: Idx)
    requires Good(v) && IsRoot(v.place, src) && s in v.place && v.place[s].Pt? && OpenTo(v, src, s) && UserFramesOk(v, src)
    requires At(v.ts, s, i).flags.present && At(v.ts, s, i).flags.user
    ensures At(v.ts, s, i).frame in v.used && At(v.ts, s, i).frame !in v.ts && At(v.ts, s, i).frame < 0x100_0000_0000
  {
    var q := UserEntryIsUserPage(v, src, s, i);
  }

  // ----- Whole tables -----

  /** Entry `i` of `srcParent` is a user link, and the clone's parent table has nothing there yet. */
  ghost predicate UserLink(v: Vm, src: Frame, dst: Frame, srcParent: Frame, dstParent: Frame, i: Idx) {
    && Pair(v, src, dst, srcParent, dstParent) && !v.place[srcParent].Pt?
    && IsLink(v.place[srcParent], At(v.ts, srcParent, i)) && At(v.ts, srcParent, i).flags.user
    && !At(v.ts, dstParent, i).flags.present
  }

  lemma StartTable(v0: Vm, d0: map<Frame, Bytes>, src: Frame, dst: Frame, srcParent: Frame, dstParent: Frame, i: Idx, g: Frame)
    returns (b: Vm)
    requires Good(v0) && UserLink(v0, src, dst, srcParent, dstParent, i) && g !in v0.used && g != 0
    ensures b == Vm(Put(v0.ts[g := ZeroTable()], dstParent, i, Entry(g, PRESENT_WRITABLE_USER)),
                    v0.place[g := Child(v0.place[dstParent], i)], v0.used + {g})
    ensures Good(b)
    ensures InTable(v0, d0, b, d0, src, dst, At(v0.ts, srcParent, i).frame, g, dstParent, i, 0) && IsRoot(b.place, src)
  {
    hide Private, CloneStep, SourceKept;
    var s := At(v0.ts, srcParent, i).frame;
    OpenChild(v0, src, srcParent, i);
    Basics(v0);
    b := NewSubtable(v0, d0, dst, dstParent, i, g);
    CloneStepGrows(v0, d0, b, d0, dst, 0, 0);
    OpenKept(v0, b, src, s);
    StartSameWalks(v0, dstParent, i, g, src);
    LoGrows(b.place[g], 0);
    StartOnlyEntry(v0, b, dst, dstParent, i, g);
  }

  lemma CloneStepGrows(a: Vm, da: map<Frame, Bytes>, b: Vm, db: map<Frame, Bytes>, dst: Frame, lo: nat, hi: nat)
    requires CloneStep(a, da, b, db, dst, lo, hi)
    ensures Grows(a, b)
  {
  }

  lemma StartOnlyEntry(v0: Vm, b: Vm, dst: Frame, d: Frame, i: Idx, g: Frame)
    requires Good(v0) && d in v0.ts && g !in v0.used
    requires b.ts == Put(v0.ts[g := ZeroTable()], d, i, Entry(g, PRESENT_WRITABLE_USER))
    ensures OnlyEntry(v0, b, dst, d, i)
  {
  }

  lemma StartSameWalks(v: Vm, d: Frame, i: Idx, g: Frame, src: Frame)
    requires Good(v) && d in v.ts && !v.place[d].Pt? && !At(v.ts, d, i).flags.present && g !in v.used && g != 0
    requires IsRoot(v.place, src) && UserFramesOk(v, src)
    ensures UserFramesOk(Vm(Put(v.ts[g := ZeroTable()], d, i, Entry(g, PRESENT_WRITABLE_USER)),
                            v.place[g := Child(v.place[d], i)], v.used + {g}), src)
    ensures SourceKept(v, Vm(Put(v.ts[g := ZeroTable()], d, i, Entry(g, PRESENT_WRITABLE_USER)),
                             v.place[g := Child(v.place[d], i)], v.used + {g}), src)
  {
    var b := LinkGrows(v, d, i, g, PRESENT_WRITABLE_USER);
    forall q
      ensures Walk(b.ts, src, q) == Walk(v.ts, src, q)
    {
    }
  }

  lemma StayInSlot(v0: Vm, d0: map<Frame, Bytes>, v: Vm, dv: map<Frame, Bytes>, w: Vm, dw: map<Frame, Bytes>,
                   src: Frame, dst: Frame, parent: Frame, k: Idx, t: Frame, i: Idx)
    requires Good(v0) && OnlyEntry(v0, v, dst, parent, k) && t !in v0.place
    requires PrivacyKept(v0, v, dst) && SlotDone(v, dv, w, dw, src, dst, t, i)
    ensures OnlyEntry(v0, w, dst, parent, k)
  {
    forall f, j: Idx | Private(v0, f, dst) && !(f == parent && j == k)
      ensures At(w.ts, f, j) == At(v0.ts, f, j)
    {
      assert Private(v, f, dst) && f != t;
    }
  }

  /** A whole table dealt with is its parent entry dealt with. */
  lemma FinishTable(v0: Vm, d0: map<Frame, Bytes>, v: Vm, d: map<Frame, Bytes>,
                    src: Frame, dst: Frame, s: Frame, t: Frame, parent: Frame, k: Idx)
    requires InTable(v0, d0, v, d, src, dst, s, t, parent, k, 512)
    ensures SlotDone(v0, d0, v, d, src, dst, parent, k) && SourceKept(v0, v, src)
    ensures CloneStep(v0, d0, v, d, dst, Lo(v0.place[parent], k), Lo(v0.place[parent], k + 1))
  {
    hide CloneStep, CopiedRange, DistinctRange, UserFramesOk, OnlyEntry, SourceKept, Lo, Base;
    ChildBase(v0.place[parent], k);
  }

  /** A failure part of the way through a table stays inside the parent entry. */
  lemma FailInside(v0: Vm, d0: map<Frame, Bytes>, v: Vm, dv: map<Frame, Bytes>, w: Vm, dw: map<Frame, Bytes>,
                   src: Frame, dst: Frame, s: Frame, t: Frame, i: Idx, parent: Frame, k: Idx, total: nat, astray: bool)
    requires Good(v) && InTable(v0, d0, v, dv, src, dst, s, t, parent, k, i)
    requires CloneStep(v, dv, w, dw, dst, Lo(v.place[t], i), Lo(v.place[t], i + 1))
    requires SourceKept(v, w, src) && (astray ==> !DirectOk(v, src, total))
    ensures CloneStep(v0, d0, w, dw, dst, Lo(v0.place[parent], k), Lo(v0.place[parent], k + 1))
    ensures SourceKept(v0, w, src) && (astray ==> !DirectOk(v0, src, total))
  {
    hide CloneStep, CopiedRange, DistinctRange, UserFramesOk, Good, Pair, Lo, Base, SourceKept, DirectOk, OnlyEntry;
    var pl := Child(v0.place[parent], k);
    ChildBase(v0.place[parent], k);
    LoGrows(pl, i);
    LoTop(pl, i + 1);
    StepTransitive(v0, d0, v, dv, w, dw, dst, Base(pl), Lo(pl, i), Lo(pl, i + 1));
    StepWider(v0, d0, w, dw, dst, Base(pl), Lo(pl, i + 1), Base(pl), Lo(pl, 512));
    StillDirect(v0, v, w, src, total, astray);
  }

  lemma LoTop(pl: Place, i: nat)
    requires i <= 512
    ensures Lo(pl, i) <= Lo(pl, 512)
  {
  }

  lemma StoredInClone(v: Vm, src: Frame, dst: Frame, t: Frame, i: Idx, e: Entry)
    requires Good(v) && IsRoot(v.place, src) && src != dst && t in v.ts && Private(v, t, dst)
    ensures SourceKept(v, v.(ts := Put(v.ts, t, i, e)), src)
  {
    var b := v.(ts := Put(v.ts, t, i, e));
    forall q
      ensures Walk(b.ts, src, q) == Walk(v.ts, src, q)
    {
      StoreSourceSame(v, b, src, dst, t, i, q);
    }
  }

  /** Shares or skips entry `i` of `s`, which is not open to user mode. */
  method KernelEntry(m: Machine, s: Frame, t: Frame, i: Idx, ghost dst: Frame)
    requires m.Valid() && Pair(m.State(), m.pml4, dst, s, t) && !At(m.tables, t, i).flags.present
    requires !At(m.tables, s, i).flags.present || !At(m.tables, s, i).flags.user
    modifies m`tables
    ensures m.Valid() && SlotDone(old(m.State()), m.data, m.State(), m.data, m.pml4, dst, t, i)
    ensures SourceKept(old(m.State()), m.State(), m.pml4)
  {
    hide Good, SlotDone, UserFramesOk, OpenTo, Private, SourceKept;
    SourceKeptSame(m.State(), m.State(), m.pml4);
    ghost var w := KernelSlot(m.State(), m.data, m.pml4, dst, s, t, i);
    var entry := m.tables[s][i];
    if entry.flags.present {
      StoredInClone(m.State(), m.pml4, dst, t, i, entry);
      m.tables := Put(m.tables, t, i, entry);
    }
    assert m.State() == w;
  }

  lemma LinkFacts(v: Vm, d: map<Frame, Bytes>, src: Frame, dst: Frame, srcParent: Frame, dstParent: Frame, i: Idx)
    requires UserLink(v, src, dst, srcParent, dstParent, i) && Good(v)
    ensures srcParent in v.place && dstParent in v.place && v.place[srcParent] == v.place[dstParent]
    ensures IsRoot(v.place, src) && dstParent in v.ts && 0 !in v.ts && v.ts.Keys <= v.used
    ensures CloneStep(v, d, v, d, dst, Lo(v.place[dstParent], i), Lo(v.place[dstParent], i + 1)) && SourceKept(v, v, src)
  {
    hide SourceKept, CloneStep, OpenTo, UserFramesOk;
    Basics(v);
    StepRefl(v, d, dst, Lo(v.place[dstParent], i), Lo(v.place[dstParent], i + 1));
    SourceKeptSame(v, v, src);
  }

  /** The clone is at entry `i` of the table `t` under entry `k` of `parent`, the copy of table `s`. */
  ghost predicate InTable(v0: Vm, d0: map<Frame, Bytes>, v: Vm, d: map<Frame, Bytes>, src: Frame, dst: Frame,
                          s: Frame, t: Frame, parent: Frame, k: Idx, i: nat) {
    && Good(v0) && UserFramesOk(v0, src) && IsRoot(v0.place, src) && IsRoot(v0.place, dst) && t !in v0.place
    && parent in v0.place && !v0.place[parent].Pt? && t in v.place && v.place[t] == Child(v0.place[parent], k)
    && Progress(v0, d0, v, d, src, dst, s, t, i) && OnlyEntry(v0, v, dst, parent, k) && SourceKept(v0, v, src)
  }

  /** What the call for entry `i` needs. */
  lemma EntryReady(v0: Vm, d0: map<Frame, Bytes>, v: Vm, d: map<Frame, Bytes>, src: Frame, dst: Frame,
                   s: Frame, t: Frame, parent: Frame, k: Idx, i: Idx)
    requires InTable(v0, d0, v, d, src, dst, s, t, parent, k, i) && Good(v)
    ensures Pair(v, src, dst, s, t) && !At(v.ts, t, i).flags.present
    ensures s in v.ts && s in v.place && t in v.place && v.place[s] == v.place[t] == Child(v0.place[parent], k)
    ensures At(v.ts, s, i).flags.present && At(v.ts, s, i).flags.user && !v.place[s].Pt? ==> UserLink(v, src, dst, s, t, i)
    ensures v.place[s].Pd? && At(v.ts, s, i).flags.huge ==> !At(v.ts, s, i).flags.present || !At(v.ts, s, i).flags.user
  {
    EntryAt(v, s, i);
    hide Good, CloneStep, CopiedRange, DistinctRange, UserFramesOk, OpenTo, Private, SourceKept, OnlyEntry;
  }

  /** A step that went astray later shows that the condition did not hold at the start. */
  lemma StillDirect(a: Vm, b: Vm, c: Vm, src: Frame, total: nat, astray: bool)
    requires SourceKept(a, b, src) && SourceKept(b, c, src) && (astray ==> !DirectOk(b, src, total))
    ensures SourceKept(a, c, src) && (astray ==> !DirectOk(a, src, total))
  {
    hide SourceKept, DirectOk;
    SourceKeptChain(a, b, c, src);
    if DirectOk(a, src, total) {
      DirectKept(a, b, src, total);
    }
  }

  /** One more entry of the table is dealt with. */
  lemma NextEntry(v0: Vm, d0: map<Frame, Bytes>, v: Vm, dv: map<Frame, Bytes>, w: Vm, dw: map<Frame, Bytes>,
                  src: Frame, dst: Frame, s: Frame, t: Frame, i: Idx, parent: Frame, k: Idx)
    requires Good(v) && Good(w) && InTable(v0, d0, v, dv, src, dst, s, t, parent, k, i)
    requires SlotDone(v, dv, w, dw, src, dst, t, i) && SourceKept(v, w, src)
    ensures InTable(v0, d0, w, dw, src, dst, s, t, parent, k, i + 1)
  {
    hide CopiedRange, DistinctRange, UserFramesOk, OnlyEntry, Private, OpenTo, Good, SourceKept;
    Advance(v0, d0, v, dv, w, dw, src, dst, s, t, i);
    StayInSlot(v0, d0, v, dv, w, dw, src, dst, parent, k, t, i);
    SourceKeptChain(v0, v, w, src);
  }

  method CloneUserPt(m: Machine, dstPd: Frame, srcPt: Frame, pdIdx: Idx, ghost srcPd: Frame, ghost dst: Frame)
    returns (ok: bool, astray: bool)
    requires m.Valid() && UserLink(m.State(), m.pml4, dst, srcPd, dstPd, pdIdx) && m.place[srcPd].Pd?
    requires srcPt == At(m.tables, srcPd, pdIdx).frame
    modifies m`tables, m`place, m`data, m.frames.bits, m.frames`used
    ensures m.Valid()
    ensures ok ==> SlotDone(old(m.State()), old(m.data), m.State(), m.data, m.pml4, dst, dstPd, pdIdx)
    ensures CloneStep(old(m.State()), old(m.data), m.State(), m.data, dst,
                      Lo(old(m.place)[dstPd], pdIdx), Lo(old(m.place)[dstPd], pdIdx + 1))
    ensures astray ==> !ok && !DirectOk(old(m.State()), m.pml4, m.frames.total)
    ensures !ok && !astray ==> m.NearlyNoTable()
    ensures SourceKept(old(m.State()), m.State(), m.pml4)
  {
    hide Good, CloneStep, SlotDone, OnlyEntry, SourceKept, DirectOk, InTable, UserLink, Private, UserFramesOk, OpenTo;
    ghost var v0, d0 := m.State(), m.data;
    astray := false;
    LinkFacts(v0, d0, m.pml4, dst, srcPd, dstPd, pdIdx);
    var dstPt := m.AllocTable();
    if dstPt == 0 {
      assert m.State() == v0;
      return false, false;
    }
    ghost var b := StartTable(v0, d0, m.pml4, dst, srcPd, dstPd, pdIdx, dstPt);
    m.tables := Put(m.tables, dstPd, pdIdx, Entry(dstPt, PRESENT_WRITABLE_USER));
    m.place := b.place;
    assert m.State() == b;
    var i := 0;
    while i < 512
      invariant 0 <= i <= 512 && m.Valid() && m.pml4 == old(m.pml4)
      invariant InTable(v0, d0, m.State(), m.data, m.pml4, dst, srcPt, dstPt, dstPd, pdIdx, i)
    {
      ghost var v, dv := m.State(), m.data;
      EntryReady(v0, d0, v, dv, m.pml4, dst, srcPt, dstPt, dstPd, pdIdx, i);
      var entry := m.tables[srcPt][i];
      if !entry.flags.present || !entry.flags.user {
        KernelEntry(m, srcPt, dstPt, i, dst);
      } else {
        ok, astray := CloneUserPage(m, dstPt, srcPt, i, dst);
        if !ok {
          FailInside(v0, d0, v, dv, m.State(), m.data, m.pml4, dst, srcPt, dstPt, i, dstPd, pdIdx, m.frames.total, astray);
          return;
        }
      }
      NextEntry(v0, d0, v, dv, m.State(), m.data, m.pml4, dst, srcPt, dstPt, i, dstPd, pdIdx);
      i := i + 1;
    }
    FinishTable(v0, d0, m.State(), m.data, m.pml4, dst, srcPt, dstPt, dstPd, pdIdx);
    return true, false;
  }

  method CloneUserPd(m: Machine, dstPdpt: Frame, srcPd: Frame, pdptIdx: Idx, ghost srcPdpt: Frame, ghost dst: Frame)
    returns (ok: bool, astray: bool)
    requires m.Valid() && UserLink(m.State(), m.pml4, dst, srcPdpt, dstPdpt, pdptIdx) && m.place[srcPdpt].Pdpt?
    requires srcPd == At(m.tables, srcPdpt, pdptIdx).frame
    modifies m`tables, m`place, m`data, m.frames.bits, m.frames`used
    ensures m.Valid()
    ensures ok ==> SlotDone(old(m.State()), old(m.data), m.State(), m.data, m.pml4, dst, dstPdpt, pdptIdx)
    ensures CloneStep(old(m.State()), old(m.data), m.State(), m.data, dst,
                      Lo(old(m.place)[dstPdpt], pdptIdx), Lo(old(m.place)[dstPdpt], pdptIdx + 1))
    ensures astray ==> !ok && !DirectOk(old(m.State()), m.pml4, m.frames.total)
    ensures !ok && !astray ==> m.NearlyNoTable()
    ensures SourceKept(old(m.State()), m.State(), m.pml4)
  {
    hide Good, CloneStep, SlotDone, OnlyEntry, SourceKept, DirectOk, InTable, UserLink, Private, UserFramesOk, OpenTo;
    ghost var v0, d0 := m.State(), m.data;
    astray := false;
    LinkFacts(v0, d0, m.pml4, dst, srcPdpt, dstPdpt, pdptIdx);
    var dstPd := m.AllocTable();
    if dstPd == 0 {
      assert m.State() == v0;
      return false, false;
    }
    ghost var b := StartTable(v0, d0, m.pml4, dst, srcPdpt, dstPdpt, pdptIdx, dstPd);
    m.tables := Put(m.tables, dstPdpt, pdptIdx, Entry(dstPd, PRESENT_WRITABLE_USER));
    m.place := b.place;
    assert m.State() == b;
    var i := 0;
    while i < 512
      invariant 0 <= i <= 512 && m.Valid() && m.pml4 == old(m.pml4)
      invariant InTable(v0, d0, m.State(), m.data, m.pml4, dst, srcPd, dstPd, dstPdpt, pdptIdx, i)
    {
      ghost var v, dv := m.State(), m.data;
      EntryReady(v0, d0, v, dv, m.pml4, dst, srcPd, dstPd, dstPdpt, pdptIdx, i);
      var entry := m.tables[srcPd][i];
      if !entry.flags.present || !entry.flags.user || entry.flags.huge {
        KernelEntry(m, srcPd, dstPd, i, dst);
      } else {
        ok, astray := CloneUserPt(m, dstPd, entry.frame, i, srcPd, dst);
        if !ok {
          FailInside(v0, d0, v, dv, m.State(), m.data, m.pml4, dst, srcPd, dstPd, i, dstPdpt, pdptIdx, m.frames.total, astray);
          return;
        }
      }
      NextEntry(v0, d0, v, dv, m.State(), m.data, m.pml4, dst, srcPd, dstPd, i, dstPdpt, pdptIdx);
      i := i + 1;
    }
    FinishTable(v0, d0, m.State(), m.data, m.pml4, dst, srcPd, dstPd, dstPdpt, pdptIdx);
    return true, false;
  }

  method CloneUserPdpt(m: Machine, dstPml4: Frame, srcPdpt: Frame, pml4Idx: Idx, ghost srcPml4: Frame, ghost dst: Frame)
    returns (ok: bool, astray: bool)
    requires m.Valid() && UserLink(m.State(), m.pml4, dst, srcPml4, dstPml4, pml4Idx) && m.place[srcPml4].Root?
    requires srcPdpt == At(m.tables, srcPml4, pml4Idx).frame
    modifies m`tables, m`place, m`data, m.frames.bits, m.frames`used
    ensures m.Valid()
    ensures ok ==> SlotDone(old(m.State()), old(m.data), m.State(), m.data, m.pml4, dst, dstPml4, pml4Idx)
    ensures CloneStep(old(m.State()), old(m.data), m.State(), m.data, dst,
                      Lo(old(m.place)[dstPml4], pml4Idx), Lo(old(m.place)[dstPml4], pml4Idx + 1))
    ensures astray ==> !ok && !DirectOk(old(m.State()), m.pml4, m.frames.total)
    ensures !ok && !astray ==> m.NearlyNoTable()
    ensures SourceKept(old(m.State()), m.State(), m.pml4)
  {
    hide Good, CloneStep, SlotDone, OnlyEntry, SourceKept, DirectOk, InTable, UserLink, Private, UserFramesOk, OpenTo;
    ghost var v0, d0 := m.State(), m.data;
    astray := false;
    LinkFacts(v0, d0, m.pml4, dst, srcPml4, dstPml4, pml4Idx);
    var dstPdpt := m.AllocTable();
    if dstPdpt == 0 {
      assert m.State() == v0;
      return false, false;
    }
    ghost var b := StartTable(v0, d0, m.pml4, dst, srcPml4, dstPml4, pml4Idx, dstPdpt);
    m.tables := Put(m.tables, dstPml4, pml4Idx, Entry(dstPdpt, PRESENT_WRITABLE_USER));
    m.place := b.place;
    assert m.State() == b;
    var i := 0;
    while i < 512
      invariant 0 <= i <= 512 && m.Valid() && m.pml4 == old(m.pml4)
      invariant InTable(v0, d0, m.State(), m.data, m.pml4, dst, srcPdpt, dstPdpt, dstPml4, pml4Idx, i)
    {
      ghost var v, dv := m.State(), m.data;
      EntryReady(v0, d0, v, dv, m.pml4, dst, srcPdpt, dstPdpt, dstPml4, pml4Idx, i);
      var entry := m.tables[srcPdpt][i];
      if !entry.flags.present || !entry.flags.user {
        KernelEntry(m, srcPdpt, dstPdpt, i, dst);
      } else {
        ok, astray := CloneUserPd(m, dstPdpt, entry.frame, i, srcPdpt, dst);
        if !ok {
          FailInside(v0, d0, v, dv, m.State(), m.data, m.pml4, dst, srcPdpt, dstPdpt, i, dstPml4, pml4Idx, m.frames.total, astray);
          return;
        }
      }
      NextEntry(v0, d0, v, dv, m.State(), m.data, m.pml4, dst, srcPdpt, dstPdpt, i, dstPml4, pml4Idx);
      i := i + 1;
    }
    FinishTable(v0, d0, m.State(), m.data, m.pml4, dst, srcPdpt, dstPdpt, dstPml4, pml4Idx);
    return true, false;
  }

  // ----- The root -----

  /** A fresh zeroed table as a new root: nothing is mapped from it, nothing changes for the others. */
  lemma NewRoot(v: Vm, src: Frame, g: Frame) returns (b: Vm)
    requires Good(v) && IsRoot(v.place, src) && g !in v.used && g != 0
    ensures b == Vm(v.ts[g := ZeroTable()], v.place[g := Root], v.used + {g})
    ensures Good(b) && SameWalks(v, b) && Private(b, g, g) && LinksKept(v, b)
    ensures UserFramesOk(v, src) ==> Pair(b, src, g, src, g)
  {
    b := Vm(v.ts[g := ZeroTable()], v.place[g := Root], v.used + {g});
    Basics(v);
    forall h, j: Idx | h in b.ts
      ensures EntryOk(b.place, b.place[h], j, At(b.ts, h, j))
      ensures IsHuge(b.place[h], At(b.ts, h, j)) ==> !At(b.ts, h, j).flags.user
    {
      if h != g { EntryAt(v, h, j); }
    }
    forall r, q | IsRoot(v.place, r)
      ensures Walk(b.ts, r, q) == Walk(v.ts, r, q)
    {
      FreshUnreached(v, g, r, q);
    }
  }

  lemma FreshUnreached(v: Vm, g: Frame, r: Frame, q: Page)
    requires Good(v) && IsRoot(v.place, r) && g !in v.ts
    ensures Walk(v.ts[g := ZeroTable()], r, q) == Walk(v.ts, r, q)
  {
    EntryAt(v, r, q.i4);
    var e4 := At(v.ts, r, q.i4);
    if e4.flags.present {
      EntryAt(v, e4.frame, q.i3);
      var e3 := At(v.ts, e4.frame, q.i3);
      if e3.flags.present {
        EntryAt(v, e3.frame, q.i2);
      }
    }
  }

  /** No root of `a` sees a change outside the window, and no byte of a used frame changes. */
  ghost predicate OthersUnharmed(a: Vm, da: map<Frame, Bytes>, b: Vm, db: map<Frame, Bytes>) {
    && OnlyWindow(a, b) && DataKept(a.used, da, db) && a.used <= b.used
    && (forall f :: f in a.place ==> f in b.place && b.place[f] == a.place[f])
    && (forall f :: f in b.place && f !in a.place ==> f !in a.used)
  }

  /** The sharing clone as a whole. */
  lemma SpaceShared(v0: Vm, v1: Vm, v: Vm, d: map<Frame, Bytes>, src: Frame, dst: Frame, total: nat)
    requires Good(v0) && Good(v) && IsRoot(v0.place, src) && dst !in v0.used && v.place == v1.place && v.used == v1.used
    requires v1 == Vm(v0.ts[dst := ZeroTable()], v0.place[dst := Root], v0.used + {dst}) && SameWalks(v0, v1)
    requires forall q :: Walk(v.ts, dst, q) == Walk(v1.ts, src, q)
    requires forall r, q :: IsRoot(v.place, r) && r != dst ==> Walk(v.ts, r, q) == Walk(v1.ts, r, q)
    ensures SameWalks(v0, v) && SourceKept(v0, v, src) && OthersUnharmed(v0, d, v, d)
    ensures forall q :: Walk(v.ts, dst, q) == Walk(v0.ts, src, q)
    ensures DirectOk(v0, src, total) ==> DirectOk(v, src, total)
  {
    hide Good, Walk, DirectOk;
    Basics(v0);
    forall r, q | IsRoot(v0.place, r)
      ensures Walk(v.ts, r, q) == Walk(v0.ts, r, q)
    {
      assert IsRoot(v.place, r) && r != dst;
    }
    SourceKeptSame(v0, v, src);
    if DirectOk(v0, src, total) {
      DirectKept(v0, v, src, total);
    }
  }

  lemma NobodyHarmed(a: Vm, d: map<Frame, Bytes>)
    ensures OthersUnharmed(a, d, a, d)
  {
  }

  /** `dst` is a separate copy of the address space of `src`. */
  ghost predicate Cloned(a: Vm, da: map<Frame, Bytes>, b: Vm, db: map<Frame, Bytes>, src: Frame, dst: Frame) {
    && IsRoot(b.place, dst) && dst !in a.used
    && (forall q :: !IsWindow(q) ==> CopiedPage(a, da, b, db, src, dst, q))
    && DistinctRange(a, b, src, dst, 0, PAGES)
    && OthersUnharmed(a, da, b, db)
  }

  /** The number of 4 KiB pages of a 48-bit address space. */
  const PAGES: nat := 0x10_0000_0000

  lemma FinishRoot(v0: Vm, d0: map<Frame, Bytes>, v1: Vm, v: Vm, d: map<Frame, Bytes>, src: Frame, dst: Frame)
    requires Good(v0) && IsRoot(v0.place, src) && dst !in v0.used && dst != 0
    requires v1 == Vm(v0.ts[dst := ZeroTable()], v0.place[dst := Root], v0.used + {dst})
    requires SameWalks(v0, v1) && Progress(v1, d0, v, d, src, dst, src, dst, 512)
    ensures Cloned(v0, d0, v, d, src, dst)
  {
    assert Base(Root) == 0 && Lo(Root, 512) == PAGES;
    Basics(v0);
    forall q | !IsWindow(q)
      ensures CopiedPage(v0, d0, v, d, src, dst, q)
    {
      assert 0 <= Num(q) < PAGES;
      assert CopiedPage(v1, d0, v, d, src, dst, q);
      assert Walk(v1.ts, src, q) == Walk(v0.ts, src, q);
    }
    forall p, q | CopiedUser(v0.ts, src, p, 0, PAGES) && CopiedUser(v0.ts, src, q, 0, PAGES) && p != q
      ensures FrameAt(v.ts, dst, p) != FrameAt(v.ts, dst, q)
    {
      assert CopiedUser(v1.ts, src, p, 0, PAGES) && CopiedUser(v1.ts, src, q, 0, PAGES);
    }
    FailRoot(v0, d0, v1, v, d, dst, 0, PAGES);
  }

  lemma FailRoot(v0: Vm, d0: map<Frame, Bytes>, v1: Vm, v: Vm, d: map<Frame, Bytes>, dst: Frame, lo: nat, hi: nat)
    requires Good(v0) && dst !in v0.used
    requires v1 == Vm(v0.ts[dst := ZeroTable()], v0.place[dst := Root], v0.used + {dst})
    requires SameWalks(v0, v1) && CloneStep(v1, d0, v, d, dst, lo, hi)
    ensures OthersUnharmed(v0, d0, v, d)
  {
    Basics(v0);
    forall r, q | IsRoot(v0.place, r) && !IsWindow(q)
      ensures Walk(v.ts, r, q) == Walk(v0.ts, r, q)
    {
      assert r != dst && IsRoot(v1.place, r);
      assert Walk(v1.ts, r, q) == Walk(v0.ts, r, q);
    }
  }

  /** The copying clone below a fresh root table. */
  method CopyRoot(m: Machine, dst: Frame, ghost v1: Vm) returns (ok: bool, astray: bool)
    requires m.Valid() && m.State() == v1 && dst != m.pml4 && dst in m.tables && m.tables[dst] == ZeroTable()
    requires Pair(v1, m.pml4, dst, m.pml4, dst) && m.place[m.pml4] == Root
    modifies m`tables, m`place, m`data, m.frames.bits, m.frames`used
    ensures m.Valid()
    ensures ok ==> Progress(v1, old(m.data), m.State(), m.data, m.pml4, dst, m.pml4, dst, 512)
    ensures CloneStep(v1, old(m.data), m.State(), m.data, dst, 0, PAGES)
    ensures astray ==> !ok && !DirectOk(v1, m.pml4, m.frames.total)
    ensures !ok && !astray ==> m.NearlyNoTable()
    ensures SourceKept(v1, m.State(), m.pml4)
  {
    hide Good, UserFramesOk, OpenTo, CloneStep, SlotDone, Private, CopiedRange, DistinctRange, OnlyEntry, SourceKept, DirectOk;
    ghost var d0 := m.data;
    astray := false;
    SourceKeptSame(v1, v1, m.pml4);
    StartRoot(v1, d0, m.pml4, dst);
    var i := 0;
    while i < 512
      invariant 0 <= i <= 512 && m.Valid() && m.pml4 == old(m.pml4) && SourceKept(v1, m.State(), m.pml4)
      invariant Progress(v1, d0, m.State(), m.data, m.pml4, dst, m.pml4, dst, i)
    {
      ghost var v, dv := m.State(), m.data;
      var entry := m.tables[m.pml4][i];
      if !entry.flags.present || !entry.flags.user {
        KernelEntry(m, m.pml4, dst, i, dst);
      } else {
        ok, astray := CloneUserPdpt(m, dst, entry.frame, i, m.pml4, dst);
        StillDirect(v1, v, m.State(), m.pml4, m.frames.total, astray);
        if !ok {
          RootStep(v1, d0, v, dv, m.State(), m.data, dst, i);
          return;
        }
      }
      SourceKeptChain(v1, v, m.State(), m.pml4);
      Advance(v1, d0, v, dv, m.State(), m.data, m.pml4, dst, m.pml4, dst, i);
      i := i + 1;
    }
    RootDone(v1, d0, m.State(), m.data, dst);
    return true, false;
  }

  lemma StartRoot(v1: Vm, d0: map<Frame, Bytes>, src: Frame, dst: Frame)
    requires Pair(v1, src, dst, src, dst) && v1.ts[dst] == ZeroTable()
    ensures Progress(v1, d0, v1, d0, src, dst, src, dst, 0)
  {
    StepRefl(v1, d0, dst, 0, 0);
  }

  lemma RootDone(v1: Vm, d0: map<Frame, Bytes>, v: Vm, d: map<Frame, Bytes>, dst: Frame)
    requires CloneStep(v1, d0, v, d, dst, Base(Root), Lo(Root, 512))
    ensures CloneStep(v1, d0, v, d, dst, 0, PAGES)
  {
  }

  lemma RootStep(v1: Vm, d0: map<Frame, Bytes>, v: Vm, dv: map<Frame, Bytes>, w: Vm, dw: map<Frame, Bytes>, dst: Frame, i: Idx)
    requires Good(v1) && Good(v)
    requires CloneStep(v1, d0, v, dv, dst, Base(Root), Lo(Root, i)) && CloneStep(v, dv, w, dw, dst, Lo(Root, i), Lo(Root, i + 1))
    ensures CloneStep(v1, d0, w, dw, dst, 0, PAGES)
  {
    hide CloneStep, Good;
    StepTransitive(v1, d0, v, dv, w, dw, dst, Base(Root), Lo(Root, i), Lo(Root, i + 1));
    StepWider(v1, d0, w, dw, dst, Base(Root), Lo(Root, i + 1), 0, PAGES);
  }

  /** The first `i` entries of the root `src` are shared with the root `dst`, and nothing else differs from `ts0`. */
  ghost predicate SharedUpTo(ts0: Tables, ts: Tables, src: Frame, dst: Frame, i: nat) {
    && ts.Keys == ts0.Keys && src in ts && dst in ts
    && (forall f :: f in ts && f != dst ==> ts[f] == ts0[f])
    && (forall j: Idx :: j < i && ts[src][j].flags.present ==> ts[dst][j] == ts[src][j])
    && (forall j: Idx :: j >= i || !ts[src][j].flags.present ==> !ts[dst][j].flags.present)
  }

  lemma OneMoreShared(ts0: Tables, ts: Tables, src: Frame, dst: Frame, i: Idx)
    requires SharedUpTo(ts0, ts, src, dst, i) && src != dst
    ensures !ts[dst][i].flags.present
    ensures ts[src][i].flags.present ==> SharedUpTo(ts0, Put(ts, dst, i, ts[src][i]), src, dst, i + 1)
    ensures !ts[src][i].flags.present ==> SharedUpTo(ts0, ts, src, dst, i + 1)
  {
  }

  /** The shallow clone: every present entry of the source root, user or not. */
  method ShareRoot(m: Machine, dst: Frame)
    requires m.Valid() && dst != m.pml4 && IsRoot(m.place, dst) && m.tables[dst] == ZeroTable()
    modifies m`tables
    ensures m.Valid()
    ensures forall q :: Walk(m.tables, dst, q) == old(Walk(m.tables, m.pml4, q))
    ensures forall r, q :: IsRoot(m.place, r) && r != dst ==> Walk(m.tables, r, q) == old(Walk(m.tables, r, q))
  {
    hide Good, Walk, CloneStep, Private, LinksKept, Grows, SharedUpTo, Put;
    ghost var v0 := m.State();
    Basics(v0);
    NothingShared(m.tables, m.pml4, dst);
    var i := 0;
    while i < 512
      invariant 0 <= i <= 512 && m.Valid() && dst in m.tables && m.pml4 in m.tables
      invariant SharedUpTo(v0.ts, m.tables, m.pml4, dst, i)
    {
      var entry := m.tables[m.pml4][i];
      OneMoreShared(v0.ts, m.tables, m.pml4, dst, i);
      if entry.flags.present {
        ghost var b := ShareOne(m.State(), m.data, m.pml4, dst, i);
        m.tables := Put(m.tables, dst, i, entry);
        assert m.State() == b;
      }
      i := i + 1;
    }
    forall r, q | IsRoot(m.place, r)
      ensures Walk(m.tables, r, q) == old(Walk(m.tables, if r == dst then m.pml4 else r, q))
    {
      SharedRootWalk(v0, m.State(), m.pml4, dst, r, q);
    }
  }

  lemma NothingShared(ts: Tables, src: Frame, dst: Frame)
    requires src in ts && dst in ts && ts[dst] == ZeroTable()
    ensures SharedUpTo(ts, ts, src, dst, 0)
  {
  }

  /** Sharing one entry of the root keeps the trees. */
  lemma ShareOne(v: Vm, d: map<Frame, Bytes>, src: Frame, dst: Frame, i: Idx) returns (b: Vm)
    requires Good(v) && IsRoot(v.place, src) && IsRoot(v.place, dst) && dst in v.ts && src in v.ts
    requires v.ts[src][i].flags.present && !v.ts[dst][i].flags.present
    ensures b == v.(ts := Put(v.ts, dst, i, v.ts[src][i])) && Good(b) && src in b.ts && dst in b.ts
  {
    hide Walk, CloneStep, Private;
    EntryAt(v, src, i);
    RootIsPrivate(v, dst);
    b := PrivateStore(v, d, dst, dst, i, v.ts[src][i]);
  }

  lemma RootIsPrivate(v: Vm, dst: Frame)
    requires IsRoot(v.place, dst)
    ensures Private(v, dst, dst)
  {
  }

  lemma SharedRootWalk(v0: Vm, v: Vm, src: Frame, dst: Frame, r: Frame, q: Page)
    requires Good(v0) && Good(v) && v.place == v0.place && IsRoot(v.place, src) && IsRoot(v.place, dst) && IsRoot(v.place, r)
    requires src != dst && SharedUpTo(v0.ts, v.ts, src, dst, 512)
    ensures Walk(v.ts, r, q) == Walk(v0.ts, if r == dst then src else r, q)
  {
    var x := if r == dst then src else r;
    EntryAt(v0, x, q.i4);
    var e4 := At(v0.ts, x, q.i4);
    if e4.flags.present {
      EntryAt(v0, e4.frame, q.i3);
      var e3 := At(v0.ts, e4.frame, q.i3);
      if e3.flags.present {
        EntryAt(v0, e3.frame, q.i2);
      }
    }
  }

  /**
    Clones the current address space. With `copyUser`, the result is a separate
    copy: user pages get their own frames with the same bytes, everything else is
    shared. Without it, the result translates every page as the source does. The
    other address spaces keep all translations outside the window, also on failure.
    A direct copy that goes astray is reported, and nothing is claimed about what the
    code does from there on; if every free or user frame below the limit is mapped to
    itself this does not happen, and the condition holds for the next clone.
   */
  method CloneCurrentAddressSpace(m: Machine, copyUser: bool) returns (cr3: Frame, astray: bool)
    requires m.Valid() && UserFramesOk(m.State(), m.pml4)
    modifies m`tables, m`place, m`data, m.frames.bits, m.frames`used
    ensures m.Valid()
    ensures astray ==> copyUser && cr3 == 0 && !DirectOk(old(m.State()), m.pml4, m.frames.total)
    ensures cr3 == 0 && !astray ==> m.NearlyNoTable()
    ensures !copyUser ==> (cr3 == 0 <==> old(m.NoFreeTable()))
    ensures DirectOk(old(m.State()), m.pml4, m.frames.total) ==> DirectOk(m.State(), m.pml4, m.frames.total)
    ensures SourceKept(old(m.State()), m.State(), m.pml4)
    ensures !astray ==> OthersUnharmed(old(m.State()), old(m.data), m.State(), m.data)
    ensures copyUser && cr3 != 0 ==>
      Cloned(old(m.State()), old(m.data), m.State(), m.data, m.pml4, cr3)
    ensures !copyUser && cr3 != 0 ==> IsRoot(m.place, cr3) && cr3 !in old(m.place) && m.data == old(m.data)
    ensures !copyUser && cr3 != 0 ==> SameWalks(old(m.State()), m.State())
    ensures !copyUser && cr3 != 0 ==> forall q :: Walk(m.tables, cr3, q) == old(Walk(m.tables, m.pml4, q))
  {
    hide Good, UserFramesOk, CloneStep, Private, CopiedRange, DistinctRange, Walk, Progress, Pair, Cloned, SourceKept;
    hide DirectOk, OthersUnharmed, BeyondUsed, SameWalks;
    ghost var v0, d0 := m.State(), m.data;
    Basics(v0);
    astray := false;
    var dst := m.AllocTable();
    if dst == 0 {
      SourceKeptSame(v0, v0, m.pml4);
      NobodyHarmed(v0, d0);
      assert m.State() == v0;
      return 0, false;
    }
    ghost var v1 := NewRoot(v0, m.pml4, dst);
    m.place := v1.place;
    assert m.State() == v1;
    SourceKeptSame(v0, v1, m.pml4);
    if !copyUser {
      ShareRoot(m, dst);
      SpaceShared(v0, v1, m.State(), d0, m.pml4, dst, m.frames.total);
      return dst, false;
    }
    var ok;
    ok, astray := CopyRoot(m, dst, v1);
    StillDirect(v0, v1, m.State(), m.pml4, m.frames.total, astray);
    KeepsDirect(v0, v1, m.State(), m.pml4, m.frames.total);
    SourceKeptChain(v0, v1, m.State(), m.pml4);
    FailRoot(v0, d0, v1, m.State(), m.data, dst, 0, PAGES);
    if !ok {
      return 0, astray;
    }
    FinishRoot(v0, d0, v1, m.State(), m.data, m.pml4, dst);
    return dst, false;
  }

  /**
    A clone, finished or not, leaves the source ready for the next one, if it was ready.
    Being ready, no direct copy goes astray.
   */
  lemma CloneKeepsReady(a: Vm, da: map<Frame, Bytes>, b: Vm, db: map<Frame, Bytes>, src: Frame, total: nat)
    requires Good(a) && Good(b) && OthersUnharmed(a, da, b, db) && SourceKept(a, b, src)
    requires LeavesOwned(a, src) && AllDirect(a, src, total)
    ensures UserFramesOk(a, src) && DirectOk(a, src, total) && LeavesOwned(b, src) && AllDirect(b, src, total)
  {
    hide Walk, Good, AllDirect, DataKept, OnlyWindow;
    ReadyToClone(a, src, total);
    SourceKeepsDirect(a, b, src, total);
    Basics(a);
    Basics(b);
    forall q
      ensures LeafOwned(b, Walk(b.ts, src, q))
    {
      assert LeafOwned(a, Walk(a.ts, src, q));
    }
  }

  lemma KeepsDirect(a: Vm, b: Vm, c: Vm, src: Frame, total: nat)
    requires SourceKept(a, b, src) && SourceKept(b, c, src)
    ensures DirectOk(a, src, total) ==> DirectOk(c, src, total)
  {
    hide SourceKept, DirectOk;
    SourceKeptChain(a, b, c, src);
    if DirectOk(a, src, total) {
      DirectKept(a, c, src, total);
    }
  }

  // ----- After a copying clone -----

  /** An entry stored right after the clone for a user page of the parent or the child changes no translation of the other. */
  lemma StoresAreIsolated(a: Vm, da: map<Frame, Bytes>, b: Vm, db: map<Frame, Bytes>, src: Frame, dst: Frame, q: Page, e: Entry)
    requires Good(b) && IsRoot(a.place, src) && IsRoot(b.place, src) && src != dst && Cloned(a, da, b, db, src, dst)
    requires UserPage(Walk(a.ts, src, q)) && !IsWindow(q) && HasPt(b.ts, src, q)
    ensures HasPt(b.ts, dst, q) && PtOf(b.ts, dst, q) in b.ts && PtOf(b.ts, src, q) in b.ts
    ensures forall r, p :: IsRoot(b.place, r) && r != dst ==>
      Walk(Put(b.ts, PtOf(b.ts, dst, q), q.i1, e), r, p) == Walk(b.ts, r, p)
    ensures forall p :: Walk(Put(b.ts, PtOf(b.ts, src, q), q.i1, e), dst, p) == Walk(b.ts, dst, p)
  {
    assert CopiedPage(a, da, b, db, src, dst, q);
    HasPtPlace(b, src, q);
    HasPtPlace(b, dst, q);
    var t := PtOf(b.ts, dst, q);
    forall r, p | IsRoot(b.place, r) && r != dst
      ensures Walk(Put(b.ts, t, q.i1, e), r, p) == Walk(b.ts, r, p)
    {
      assert !Touches(b.ts, b.place, r, t);
      LeafOne(b.ts, b.place, b.used, t, q.i1, e, r, p);
    }
    var s := PtOf(b.ts, src, q);
    assert s != t by { assert !Touches(b.ts, b.place, src, t); }
    forall p
      ensures Walk(Put(b.ts, s, q.i1, e), dst, p) == Walk(b.ts, dst, p)
    {
      LeafOne(b.ts, b.place, b.used, s, q.i1, e, dst, p);
    }
  }

  /** No user page of the child shares a frame with a user page of the parent. */
  lemma FramesAreIsolated(a: Vm, da: map<Frame, Bytes>, b: Vm, db: map<Frame, Bytes>, src: Frame, dst: Frame, p: Page, q: Page)
    requires IsRoot(a.place, src) && Cloned(a, da, b, db, src, dst) && UserFramesOk(a, src)
    requires UserPage(Walk(a.ts, src, p)) && UserPage(Walk(a.ts, src, q)) && !IsWindow(p) && !IsWindow(q)
    ensures UserPage(Walk(b.ts, src, p)) && UserPage(Walk(b.ts, dst, q))
    ensures Walk(b.ts, src, p).frame != Walk(b.ts, dst, q).frame
  {
    assert CopiedPage(a, da, b, db, src, dst, q);
    assert Walk(b.ts, src, p) == Walk(a.ts, src, p);
  }
}
