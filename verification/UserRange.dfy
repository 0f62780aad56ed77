/**
  Memory for programs: `paging_map_user_range`, which serves mmap, and the loop of
  brk. Both take free frames, zero them through the window and enter them in the
  current address space; every such call is a run of deeds.
 */
module UserRange {
  import opened Frames
  import opened PageTables
  import opened Paging
  import opened CloneSpec
  import opened CloneDirect
  import opened CloneRuns
  import Boot
  import Clone

  const USER_BRK_START: nat := 0x8000_0000

  /** The deeds of a run that enter or remove a page. */
  function Named(xs: seq<Deed>): seq<Deed>
    decreases |xs|
  {
    if xs == [] then []
    else Named(xs[..|xs| - 1]) + if xs[|xs| - 1].Other? then [] else [xs[|xs| - 1]]
  }

  lemma NamedSnoc(xs: seq<Deed>, x: Deed)
    ensures Named(xs + [x]) == Named(xs) + if x.Other? then [] else [x]
  {
    assert (xs + [x])[..|xs|] == xs;
  }

  /** The run so far, and where it is. */
  ghost predicate RunTo(vs: seq<Vm>, v: Vm, src: Frame, dst: Frame, xs: seq<Deed>) {
    Run(vs, src, dst, xs) && vs[|xs|] == v
  }

  lemma RunSnoc(vs: seq<Vm>, v: Vm, src: Frame, dst: Frame, xs: seq<Deed>, w: Vm, x: Deed)
    requires RunTo(vs, v, src, dst, xs) && Step(v, w, src, dst, x)
    ensures RunTo(vs + [w], w, src, dst, xs + [x]) && (vs + [w])[0] == vs[0]
    ensures Named(xs + [x]) == Named(xs) + if x.Other? then [] else [x]
  {
    hide Step, Named;
    NamedSnoc(xs, x);
    forall i | 0 <= i < |xs| + 1
      ensures Step((vs + [w])[i], (vs + [w])[i + 1], src, dst, (xs + [x])[i])
    {
      if i < |xs| {
        assert Step(vs[i], vs[i + 1], src, dst, xs[i]);
      }
    }
  }

  // ----- What the steps keep -----

  lemma FramesTaken(v: Vm, root: Frame, total: nat, src: Frame, dst: Frame, g: Frame)
    requires Good(v) && g !in v.used
    ensures var w := v.(used := v.used + {g});
      Good(w) && Step(v, w, src, dst, Other) && (LeavesOwned(v, root) ==> LeavesOwned(w, root))
      && (AllDirect(v, root, total) ==> AllDirect(w, root, total))
  {
    hide LeavesOwned, AllDirect;
    Clone.GoodWithMore(v, {g});
    TakenKeeps(v, root, total, g);
  }

  /** Using the window for a frame that was taken, or failing to map a page. */
  lemma SideStep(v: Vm, w: Vm, root: Frame, total: nat, src: Frame, dst: Frame)
    requires Good(v) && Good(w) && Extends(v, w) && OnlyWindow(v, w) && SourceKept(v, w, root) && IsRoot(v.place, root)
    ensures Step(v, w, src, dst, Other)
    ensures (LeavesOwned(v, root) ==> LeavesOwned(w, root)) && (AllDirect(v, root, total) ==> AllDirect(w, root, total))
  {
    hide Good, Extends, LeavesOwned, AllDirect, SourceKept, OnlyWindow;
    WindowKeeps(v, w, root, total);
  }

  /** Giving back a frame that was taken in state `v0`, when no page was entered since. */
  lemma FrameGivenBack(v0: Vm, v: Vm, root: Frame, total: nat, src: Frame, dst: Frame, g: Frame)
    requires Good(v0) && Good(v) && g !in v.ts && g !in v0.used && SourceKept(v0, v, root)
    ensures var w := v.(used := v.used - {g});
      Good(w) && Step(v, w, src, dst, Other)
      && (LeavesOwned(v0, root) && LeavesOwned(v, root) ==> LeavesOwned(w, root))
      && (AllDirect(v0, root, total) ==> AllDirect(w, root, total))
  {
    hide LeavesOwned, AllDirect, SourceKept;
    GivenBackKeeps(v0, v, root, total, g);
  }

  /** A store into a page table gives the window no page table. */
  lemma StillStarved(a: Vm, root: Frame, p: Page, e: Entry)
    requires Good(a) && IsRoot(a.place, root) && HasPt(a.ts, root, p) && !HasPt(a.ts, root, PageOf(WINDOW))
    ensures !HasPt(StoreAt(a, root, p, e).ts, root, PageOf(WINDOW)) && StoreAt(a, root, p, e).used == a.used
  {
    hide HasPt, Good, PageOf;
    LeafReach(a, root, p, e);
  }

  lemma AllZeros(c: Bytes)
    ensures Splice(c, 0, Zeros(PAGE_SIZE)) == Zeros(PAGE_SIZE)
  {
  }

  // ----- One page -----

  /** Takes a free frame and zeroes it through the window; 0 when there is none. */
  method TakeFrame(m: Machine) returns (g: Frame, cleared: bool)
    requires m.Valid()
    modifies m`tables, m`place, m`data, m.frames.bits, m.frames`used
    ensures m.Valid()
    ensures g == 0 ==> m.State() == old(m.State()) && m.data == old(m.data) && forall f: nat :: f < m.frames.total ==> f in m.frames.used
    ensures g != 0 ==> g !in old(m.frames.used) && g < m.frames.total && g !in m.tables
    ensures g != 0 ==> g in m.frames.used && old(m.frames.used) <= m.frames.used
    ensures g != 0 ==>
      var v := old(m.State()).(used := old(m.frames.used) + {g});
      Good(v) && Extends(v, m.State()) && OnlyWindow(v, m.State()) && SourceKept(v, m.State(), m.pml4)
    ensures g != 0 ==> if cleared then HasPt(m.tables, m.pml4, PageOf(WINDOW)) else m.Starved(PageOf(WINDOW))
    ensures g != 0 && old(m.Starved(PageOf(WINDOW))) ==> !cleared
    ensures g != 0 && old(HasPt(m.tables, m.pml4, PageOf(WINDOW))) ==> cleared
    ensures g != 0 ==> m.data == if cleared then old(m.data)[g := Zeros(PAGE_SIZE)] else old(m.data)
  {
    hide Good, Extends, OnlyWindow, SourceKept, HasPt, PageOf, FrameOf, KeepsOthers, Walk;
    ghost var s0 := m.State();
    Basics(s0);
    var page := m.frames.AllocPage();
    g, cleared := page / PAGE_SIZE, false;
    if g == 0 {
      return;
    }
    Clone.GoodWithMore(s0, {g});
    Clone.FrameOfFrame(g);
    ghost var v := m.State();
    AllZeros(Content(m.data, g));
    cleared := m.StoreThroughWindow(page, 0, Zeros(PAGE_SIZE));
    NewTablesWereFree(v, m.State());
  }

  /** The states of a call so far, its deeds, and the frames of the pages it has entered. */
  datatype Trace = Trace(vs: seq<Vm>, xs: seq<Deed>, gs: seq<Frame>)

  /** The deeds that entered pages are those for the frames taken, at consecutive pages from `start` on. */
  ghost predicate Traced(t: Trace, v0: Vm, v: Vm, src: Frame, dst: Frame, child: bool, start: nat, flags: Flags) {
    && RunTo(t.vs, v, src, dst, t.xs) && t.vs[0] == v0
    && Named(t.xs) == Entries(t.gs, child, start, flags)
    && (forall i :: 0 <= i < |t.gs| ==> t.gs[i] in v.used && t.gs[i] !in v.ts && t.gs[i] !in v0.used)
    && (forall i, j :: 0 <= i < j < |t.gs| ==> t.gs[i] != t.gs[j])
    && v0.used <= v.used
  }

  /** The address of the `i`th page from `start` on. */
  function AddrAt(start: nat, i: nat): U64 { (start + i * PAGE_SIZE) % TWO64 }

  lemma AddrNext(start: U64, i: nat)
    ensures AddrAt(start, 0) == start && (AddrAt(start, i) + PAGE_SIZE) % TWO64 == AddrAt(start, i + 1)
    ensures start + (i + 1) * PAGE_SIZE <= TWO64 ==> AddrAt(start, i) == start + i * PAGE_SIZE
  {
    WrapsOnce(start + i * PAGE_SIZE, PAGE_SIZE);
    assert start + (i + 1) * PAGE_SIZE == start + i * PAGE_SIZE + PAGE_SIZE;
  }

  /** Wrapping around before an addition changes nothing. */
  lemma WrapsOnce(x: nat, n: nat)
    ensures (x % TWO64 + n) % TWO64 == (x + n) % TWO64
  {
    var q, r := x / TWO64, x % TWO64;
    Wraps(r + n, q);
    assert x + n == r + n + q * TWO64;
  }

  lemma {:induction false} Wraps(y: nat, q: nat)
    ensures (y + q * TWO64) % TWO64 == y % TWO64
  {
    if q > 0 {
      Wraps(y, q - 1);
      assert y + q * TWO64 == y + (q - 1) * TWO64 + TWO64;
    }
  }

  function Entries(gs: seq<Frame>, child: bool, start: nat, flags: Flags): seq<Deed>
    decreases |gs|
  {
    if gs == [] then []
    else
      var n := |gs| - 1;
      Entries(gs[..n], child, start, flags) + [Enter(child, PageOf(AddrAt(start, n)), Entry(gs[n], flags.(user := true)))]
  }

  lemma EntriesSnoc(gs: seq<Frame>, g: Frame, child: bool, start: nat, flags: Flags)
    ensures Entries(gs + [g], child, start, flags) == Entries(gs, child, start, flags)
      + [Enter(child, PageOf(AddrAt(start, |gs|)), Entry(g, flags.(user := true)))]
  {
    hide PageOf;
    assert (gs + [g])[..|gs|] == gs;
  }

  lemma TraceStarts(v: Vm, src: Frame, dst: Frame, child: bool, start: nat, flags: Flags)
    ensures Traced(Trace([v], [], []), v, v, src, dst, child, start, flags)
  {
  }

  /** A deed that names no page. */
  lemma TraceOther(t: Trace, v0: Vm, v: Vm, src: Frame, dst: Frame, child: bool, start: nat, flags: Flags, w: Vm)
    requires Traced(t, v0, v, src, dst, child, start, flags) && Step(v, w, src, dst, Other) && v0.used <= w.used
    requires forall i :: 0 <= i < |t.gs| ==> t.gs[i] in w.used && t.gs[i] !in w.ts
    ensures Traced(t.(vs := t.vs + [w], xs := t.xs + [Other]), v0, w, src, dst, child, start, flags)
  {
    hide Step, Named, Entries, Run;
    RunSnoc(t.vs, v, src, dst, t.xs, w, Other);
  }

  /** A page entered for a frame taken on the way. */
  lemma TraceEnter(t: Trace, v0: Vm, v: Vm, src: Frame, dst: Frame, child: bool, start: nat, flags: Flags, w: Vm, g: Frame)
    requires Traced(t, v0, v, src, dst, child, start, flags) && v.used <= w.used
    requires Step(v, w, src, dst, Enter(child, PageOf(AddrAt(start, |t.gs|)), Entry(g, flags.(user := true))))
    requires g in w.used && g !in w.ts && g !in v0.used && g !in t.gs
    requires forall i :: 0 <= i < |t.gs| ==> t.gs[i] !in w.ts
    ensures var x := Enter(child, PageOf(AddrAt(start, |t.gs|)), Entry(g, flags.(user := true)));
      Traced(Trace(t.vs + [w], t.xs + [x], t.gs + [g]), v0, w, src, dst, child, start, flags)
  {
    hide Step, Named, Entries, Run, PageOf;
    var x := Enter(child, PageOf(AddrAt(start, |t.gs|)), Entry(g, flags.(user := true)));
    RunSnoc(t.vs, v, src, dst, t.xs, w, x);
    EntriesSnoc(t.gs, g, child, start, flags);
  }

  /** Taking a frame and using the window for it, as two deeds. */
  lemma TraceTaken(t: Trace, v0: Vm, v: Vm, w: Vm, root: Frame, total: nat, src: Frame, dst: Frame, child: bool, start: nat, flags: Flags, g: Frame)
    returns (t': Trace)
    requires Traced(t, v0, v, src, dst, child, start, flags) && Good(v) && Good(w) && IsRoot(v.place, root) && g !in v.used
    requires var u := v.(used := v.used + {g}); Extends(u, w) && OnlyWindow(u, w) && SourceKept(u, w, root)
    ensures Traced(t', v0, w, src, dst, child, start, flags) && t'.gs == t.gs && g !in t.gs && g !in v0.used
    ensures (LeavesOwned(v, root) ==> LeavesOwned(w, root)) && (AllDirect(v, root, total) ==> AllDirect(w, root, total))
    ensures SourceKept(v, w, root)
  {
    hide Good, Extends, OnlyWindow, SourceKept, LeavesOwned, AllDirect, RunTo, Step;
    var u := v.(used := v.used + {g});
    FramesTaken(v, root, total, src, dst, g);
    TraceOther(t, v0, v, src, dst, child, start, flags, u);
    SideStep(u, w, root, total, src, dst);
    NewTablesWereFree(u, w);
    t' := t.(vs := t.vs + [u], xs := t.xs + [Other]);
    TraceOther(t', v0, u, src, dst, child, start, flags, w);
    t' := t'.(vs := t'.vs + [w], xs := t'.xs + [Other]);
    SourceKeptSame(v, u, root);
    SourceKeptChain(v, u, w, root);
  }

  lemma SameData(used: set<Frame>, d: map<Frame, Bytes>)
    ensures DataKept(used, d, d)
  {
  }

  lemma ZeroedFrame(used: set<Frame>, d: map<Frame, Bytes>, g: Frame)
    requires g !in used
    ensures DataKept(used, d, d[g := Zeros(PAGE_SIZE)]) && Content(d[g := Zeros(PAGE_SIZE)], g) == Zeros(PAGE_SIZE)
  {
  }

  /**
    One page: a free frame, zeroed and entered at `addr`. A failure of the zeroing counts
    for brk (`strict`) but not for mmap. A page that cannot be entered gives its frame
    back; that happens only at an unaligned address or when tables run out.
   */
  method MapFreshPage(m: Machine, addr: U64, flags: Flags, strict: bool,
                      ghost src: Frame, ghost dst: Frame, ghost child: bool, ghost v0: Vm, ghost t: Trace, ghost start: nat)
    returns (ok: bool, ghost t': Trace)
    requires m.Valid() && m.pml4 == Space(src, dst, child) && addr == AddrAt(start, |t.gs|)
    requires Traced(t, v0, m.State(), src, dst, child, start, flags)
    modifies m`tables, m`place, m`data, m.frames.bits, m.frames`used
    ensures m.Valid() && Traced(t', v0, m.State(), src, dst, child, start, flags)
    ensures if ok then |t'.gs| == |t.gs| + 1 && t'.gs[..|t.gs|] == t.gs else t'.gs == t.gs
    ensures DataKept(old(m.frames.used), old(m.data), m.data)
    ensures if HasPt(m.tables, m.pml4, PageOf(WINDOW)) then ok ==> Content(m.data, t'.gs[|t.gs|]) == Zeros(PAGE_SIZE)
            else m.data == old(m.data) && (ok ==> m.Starved(PageOf(WINDOW)) && !strict)
    ensures old(m.Starved(PageOf(WINDOW))) ==> !HasPt(m.tables, m.pml4, PageOf(WINDOW)) && (ok ==> m.Starved(PageOf(WINDOW)))
    ensures old(HasPt(m.tables, m.pml4, PageOf(WINDOW))) ==> HasPt(m.tables, m.pml4, PageOf(WINDOW))
    ensures !ok ==> addr % PAGE_SIZE != 0 || m.NearlyNoTable()
    ensures ok ==> addr % PAGE_SIZE == 0 && old(m.frames.used) <= m.frames.used && t'.gs[|t.gs|] !in old(m.frames.used)
    ensures old(LeavesOwned(m.State(), m.pml4)) ==> LeavesOwned(m.State(), m.pml4)
    ensures old(AllDirect(m.State(), m.pml4, m.frames.total)) && (ok ==> IDENTITY_MAP_LIMIT <= addr < 0x1_0000_0000_0000) ==>
      AllDirect(m.State(), m.pml4, m.frames.total)
  {
    hide Good, Extends, OnlyWindow, SourceKept, HasPt, PageOf, FrameOf, KeepsOthers, Walk, LeavesOwned, AllDirect, Traced, Step;
    hide LeafMapping, UpperUserAfter, StoreAt, OnlyPage, Content, DataKept, Zeros, Space;
    ghost var s0, d0, total := m.State(), m.data, m.frames.total;
    SameData(s0.used, d0);
    t' := t;
    var g, cleared := TakeFrame(m);
    if g == 0 {
      return false, t;
    }
    ghost var s1 := m.State();
    ZeroedFrame(s0.used, d0, g);
    t' := TraceTaken(t, v0, s0, s1, m.pml4, total, src, dst, child, start, flags, g);
    if strict && !cleared {
      t' := GiveBack(m, g, s0, t', v0, src, dst, child, start, flags);
      return false, t';
    }
    ok, t' := EnterFrame(m, addr, flags, g, s0, src, dst, child, v0, t', start);
  }

  /** Enters the frame `g`, taken in state `s0`, at `addr`, or gives it back. */
  method EnterFrame(m: Machine, addr: U64, flags: Flags, g: Frame, ghost s0: Vm,
                    ghost src: Frame, ghost dst: Frame, ghost child: bool, ghost v0: Vm, ghost t: Trace, ghost start: nat)
    returns (ok: bool, ghost t': Trace)
    requires m.Valid() && m.pml4 == Space(src, dst, child) && addr == AddrAt(start, |t.gs|)
    requires Traced(t, v0, m.State(), src, dst, child, start, flags) && Good(s0) && SourceKept(s0, m.State(), m.pml4)
    requires g != 0 && g !in s0.used && g in m.frames.used && g !in m.tables && g < m.frames.total && g !in t.gs && g !in v0.used
    modifies m`tables, m`place, m.frames.bits, m.frames`used
    ensures m.Valid() && Traced(t', v0, m.State(), src, dst, child, start, flags)
    ensures t'.gs == if ok then t.gs + [g] else t.gs
    ensures old(m.Starved(PageOf(WINDOW))) ==> !HasPt(m.tables, m.pml4, PageOf(WINDOW)) && (ok ==> m.Starved(PageOf(WINDOW)))
    ensures old(HasPt(m.tables, m.pml4, PageOf(WINDOW))) ==> HasPt(m.tables, m.pml4, PageOf(WINDOW))
    ensures !ok ==> addr % PAGE_SIZE != 0 || m.NearlyNoTable()
    ensures ok ==> addr % PAGE_SIZE == 0 && old(m.frames.used) <= m.frames.used
    ensures LeavesOwned(s0, m.pml4) && old(LeavesOwned(m.State(), m.pml4)) ==> LeavesOwned(m.State(), m.pml4)
    ensures AllDirect(s0, m.pml4, m.frames.total) && old(AllDirect(m.State(), m.pml4, m.frames.total)) ==>
      (ok ==> IDENTITY_MAP_LIMIT <= addr < 0x1_0000_0000_0000) ==> AllDirect(m.State(), m.pml4, m.frames.total)
  {
    hide Good, Extends, OnlyWindow, SourceKept, HasPt, PageOf, FrameOf, KeepsOthers, Walk, LeavesOwned, AllDirect, Traced, Step;
    hide LeafMapping, UpperUserAfter, StoreAt, OnlyPage, SameWalks, Machine.NearlyNoTable, Space, BeyondUsed, Machine.Starved, Machine.NoFreeTable;
    ghost var s1 := m.State();
    ok := MapEntry(m, addr, g, flags);
    ghost var s2 := m.State();
    if ok {
      t' := PageTraced(s0, s1, s2, m.pml4, m.frames.total, src, dst, child, v0, t, start, flags, addr, g);
    } else {
      t' := UndoEntry(m, g, s0, s1, src, dst, child, v0, t, start, flags);
    }
  }

  /** Maps the page, and says what becomes of the window's page table. */
  method MapEntry(m: Machine, addr: U64, g: Frame, flags: Flags) returns (ok: bool)
    requires m.Valid() && g < MAX_FRAMES && g in m.frames.used && g !in m.tables
    modifies m`tables, m`place, m.frames.bits, m.frames`used
    ensures m.Valid() && Extends(old(m.State()), m.State()) && IsRoot(old(m.place), m.pml4)
    ensures g in m.frames.used && g !in m.tables && old(m.frames.used) <= m.frames.used
    ensures ok ==>
      var a, b, e := old(m.State()), m.State(), Entry(g, flags.(user := true));
      OnlyPage(a, b, PageOf(addr)) && (HasPt(a.ts, m.pml4, PageOf(addr)) ==> b == StoreAt(a, m.pml4, PageOf(addr), e))
      && Walk(b.ts, m.pml4, PageOf(addr)) == LeafMapping(e, UpperUserAfter(a.ts, m.pml4, PageOf(addr), true)) && addr % PAGE_SIZE == 0
    ensures !ok ==> SameWalks(old(m.State()), m.State()) && (addr % PAGE_SIZE != 0 || m.NoFreeTable())
    ensures old(m.Starved(PageOf(WINDOW))) ==> !HasPt(m.tables, m.pml4, PageOf(WINDOW)) && (ok ==> m.Starved(PageOf(WINDOW)))
    ensures old(HasPt(m.tables, m.pml4, PageOf(WINDOW))) ==> HasPt(m.tables, m.pml4, PageOf(WINDOW))
  {
    hide Good, Extends, HasPt, PageOf, FrameOf, KeepsOthers, Walk, LeafMapping, UpperUserAfter, StoreAt, OnlyPage, SameWalks, BeyondUsed, Machine.NoFreeTable;
    ghost var s1 := m.State();
    Clone.FrameOfFrame(g);
    ok := m.MapUserPage(addr, g * PAGE_SIZE, flags);
    NewTablesWereFree(s1, m.State());
    TableStays(s1, m.State(), m.pml4, PageOf(WINDOW));
    if ok {
      WindowTable(s1, m.State(), m.pml4, PageOf(addr), Entry(g, flags.(user := true)));
    }
  }

  /** Gives back a frame that could not be entered; the attempt led from state `s1` to the current one. */
  method UndoEntry(m: Machine, g: Frame, ghost s0: Vm, ghost s1: Vm, ghost src: Frame, ghost dst: Frame, ghost child: bool,
                   ghost v0: Vm, ghost t: Trace, ghost start: nat, ghost flags: Flags) returns (ghost t': Trace)
    requires m.Valid() && Good(s0) && Good(s1) && IsRoot(s1.place, m.pml4) && SourceKept(s0, s1, m.pml4)
    requires Traced(t, v0, s1, src, dst, child, start, flags) && Extends(s1, m.State()) && SameWalks(s1, m.State())
    requires g != 0 && g !in s0.used && g in s1.used && g !in m.tables && g < m.frames.total && g !in t.gs && g !in v0.used
    modifies m.frames.bits, m.frames`used
    ensures m.Valid() && Traced(t', v0, m.State(), src, dst, child, start, flags) && t'.gs == t.gs
    ensures old(m.NoFreeTable()) ==> m.NearlyNoTable()
    ensures LeavesOwned(s0, m.pml4) && LeavesOwned(s1, m.pml4) ==> LeavesOwned(m.State(), m.pml4)
    ensures AllDirect(s0, m.pml4, m.frames.total) ==> AllDirect(m.State(), m.pml4, m.frames.total)
  {
    hide Good, Extends, SourceKept, Walk, LeavesOwned, AllDirect, Traced, SameWalks, Machine.NearlyNoTable, BeyondUsed;
    t' := FailureTraced(s0, s1, m.State(), m.pml4, m.frames.total, src, dst, child, v0, t, start, flags);
    t' := GiveBack(m, g, s0, t', v0, src, dst, child, start, flags);
  }

  /** Nothing was entered, though tables may have been created. */
  lemma FailureTraced(s0: Vm, s1: Vm, s2: Vm, root: Frame, total: nat, src: Frame, dst: Frame, child: bool,
                      v0: Vm, t: Trace, start: nat, flags: Flags) returns (t': Trace)
    requires Traced(t, v0, s1, src, dst, child, start, flags) && IsRoot(s1.place, root)
    requires Good(s1) && Good(s2) && Extends(s1, s2) && SameWalks(s1, s2) && SourceKept(s0, s1, root)
    ensures Traced(t', v0, s2, src, dst, child, start, flags) && t'.gs == t.gs && SourceKept(s0, s2, root)
    ensures LeavesOwned(s1, root) ==> LeavesOwned(s2, root)
  {
    hide Good, Extends, SourceKept, LeavesOwned, Traced, AllDirect, SameWalks, OnlyWindow, Step;
    NewTablesWereFree(s1, s2);
    SameIsOnlyWindow(s1, s2);
    SameIsKept(s1, s2, root);
    SideStep(s1, s2, root, total, src, dst);
    TracedFacts(t, v0, s1, src, dst, child, start, flags);
    TraceOther(t, v0, s1, src, dst, child, start, flags, s2);
    t' := t.(vs := t.vs + [s2], xs := t.xs + [Other]);
    SourceKeptChain(s0, s1, s2, root);
  }

  lemma TracedFacts(t: Trace, v0: Vm, v: Vm, src: Frame, dst: Frame, child: bool, start: nat, flags: Flags)
    requires Traced(t, v0, v, src, dst, child, start, flags)
    ensures v0.used <= v.used && forall i :: 0 <= i < |t.gs| ==> t.gs[i] in v.used && t.gs[i] !in v.ts
  {
  }

  /** Whether the window has its page table does not change when a page table was there for the page entered. */
  lemma WindowTable(a: Vm, b: Vm, root: Frame, p: Page, e: Entry)
    requires Good(a) && Good(b) && Extends(a, b) && IsRoot(a.place, root) && (HasPt(a.ts, root, p) ==> b == StoreAt(a, root, p, e))
    ensures HasPt(a.ts, root, PageOf(WINDOW)) ==> HasPt(b.ts, root, PageOf(WINDOW))
    ensures HasPt(a.ts, root, p) && !HasPt(a.ts, root, PageOf(WINDOW)) ==> !HasPt(b.ts, root, PageOf(WINDOW)) && b.used == a.used
  {
    hide HasPt, Good, PageOf, Extends, StoreAt;
    TableStays(a, b, root, PageOf(WINDOW));
    if HasPt(a.ts, root, p) && !HasPt(a.ts, root, PageOf(WINDOW)) {
      StillStarved(a, root, p, e);
    }
  }

  /** The page entered at `addr` for frame `g`, which was taken in state `s0`. */
  lemma PageTraced(s0: Vm, s1: Vm, s2: Vm, root: Frame, total: nat, src: Frame, dst: Frame, child: bool,
                   v0: Vm, t: Trace, start: nat, flags: Flags, addr: U64, g: Frame) returns (t': Trace)
    requires Traced(t, v0, s1, src, dst, child, start, flags) && addr == AddrAt(start, |t.gs|)
    requires root == Space(src, dst, child) && IsRoot(s1.place, root) && Good(s1) && Good(s2) && Extends(s1, s2)
    requires OnlyPage(s1, s2, PageOf(addr)) && SourceKept(s0, s1, root)
    requires var e := Entry(g, flags.(user := true));
      (HasPt(s1.ts, root, PageOf(addr)) ==> s2 == StoreAt(s1, root, PageOf(addr), e))
      && Walk(s2.ts, root, PageOf(addr)) == LeafMapping(e, UpperUserAfter(s1.ts, root, PageOf(addr), true))
    requires g !in s0.used && g in s1.used && g !in s1.ts && g < total <= MAX_FRAMES && g !in t.gs && g !in v0.used
    ensures Traced(t', v0, s2, src, dst, child, start, flags) && t'.gs == t.gs + [g]
    ensures LeavesOwned(s1, root) ==> LeavesOwned(s2, root)
    ensures AllDirect(s0, root, total) && AllDirect(s1, root, total) && IDENTITY_MAP_LIMIT <= addr < 0x1_0000_0000_0000 ==> AllDirect(s2, root, total)
  {
    hide Good, Extends, SourceKept, HasPt, PageOf, Walk, LeavesOwned, AllDirect, UpperUserAfter, StoreAt, OnlyPage, Run, Named, Entries;
    NewTablesWereFree(s1, s2);
    var x := Enter(child, PageOf(addr), Entry(g, flags.(user := true)));
    TraceEnter(t, v0, s1, src, dst, child, start, flags, s2, g);
    t' := Trace(t.vs + [s2], t.xs + [x], t.gs + [g]);
    if LeavesOwned(s1, root) {
      EnteredOwned(s1, s2, root, PageOf(addr), g);
    }
    if AllDirect(s0, root, total) && AllDirect(s1, root, total) && IDENTITY_MAP_LIMIT <= addr < 0x1_0000_0000_0000 {
      EnteredDirect(s0, s1, s2, root, total, addr, g);
    }
  }

  method GiveBack(m: Machine, g: Frame, ghost s0: Vm, ghost t: Trace, ghost v0: Vm,
                  ghost src: Frame, ghost dst: Frame, ghost child: bool, ghost start: nat, ghost flags: Flags)
    returns (ghost t': Trace)
    requires m.Valid() && g != 0 && g !in m.tables && g < m.frames.total && g !in t.gs && g !in v0.used
    requires Good(s0) && g !in s0.used && SourceKept(s0, m.State(), m.pml4)
    requires Traced(t, v0, m.State(), src, dst, child, start, flags)
    modifies m.frames.bits, m.frames`used
    ensures m.Valid() && Traced(t', v0, m.State(), src, dst, child, start, flags) && t'.gs == t.gs
    ensures m.frames.used == old(m.frames.used) - {g} && (old(m.NoFreeTable()) ==> m.NearlyNoTable())
    ensures LeavesOwned(s0, m.pml4) && old(LeavesOwned(m.State(), m.pml4)) ==> LeavesOwned(m.State(), m.pml4)
    ensures AllDirect(s0, m.pml4, m.frames.total) ==> AllDirect(m.State(), m.pml4, m.frames.total)
  {
    hide Good, SourceKept, LeavesOwned, AllDirect, Step, Run, Named, Entries, BeyondUsed, OnlyPage, Machine.NearlyNoTable, Machine.NoFreeTable;
    ghost var s1 := m.State();
    FrameGivenBack(s0, s1, m.pml4, m.frames.total, src, dst, g);
    PageNumber(g);
    m.FreeFrame(g * PAGE_SIZE);
    TraceOther(t, v0, s1, src, dst, child, start, flags, m.State());
    t' := t.(vs := t.vs + [m.State()], xs := t.xs + [Other]);
  }

  // ----- Whole ranges -----

  /** The new pages are zero. */
  ghost predicate AllZero(d: map<Frame, Bytes>, gs: seq<Frame>) { forall i :: 0 <= i < |gs| ==> Content(d, gs[i]) == Zeros(PAGE_SIZE) }

  lemma NoneZero(d: map<Frame, Bytes>)
    ensures AllZero(d, [])
  {
  }

  lemma OneMoreZero(d: map<Frame, Bytes>, e: map<Frame, Bytes>, used: set<Frame>, gs: seq<Frame>, gs': seq<Frame>)
    requires AllZero(d, gs) && DataKept(used, d, e) && forall i :: 0 <= i < |gs| ==> gs[i] in used
    requires |gs'| == |gs| + 1 && gs'[..|gs|] == gs && Content(e, gs'[|gs|]) == Zeros(PAGE_SIZE)
    ensures AllZero(e, gs')
  {
    hide Content, Zeros;
    forall i | 0 <= i < |gs'|
      ensures Content(e, gs'[i]) == Zeros(PAGE_SIZE)
    {
      assert i < |gs| ==> gs'[i] == gs'[..|gs|][i];
    }
  }

  lemma StillZero(d: map<Frame, Bytes>, e: map<Frame, Bytes>, used: set<Frame>, gs: seq<Frame>)
    requires AllZero(d, gs) && DataKept(used, d, e) && forall i :: 0 <= i < |gs| ==> gs[i] in used
    ensures AllZero(e, gs)
  {
    hide Content, Zeros;
  }

  lemma DataChain(used: set<Frame>, more: set<Frame>, d: map<Frame, Bytes>, e: map<Frame, Bytes>, f: map<Frame, Bytes>)
    requires DataKept(used, d, e) && DataKept(more, e, f) && used <= more
    ensures DataKept(used, d, f)
  {
    hide Content;
  }

  /** The number of pages of `paging_map_user_range`; its end wraps around at 64 bits, and then there are none. */
  function Pages(virt: U64, size: U64): nat {
    var end := AlignDown((virt + size + PAGE_SIZE - 1) % TWO64);
    if end <= AlignDown(virt) then 0 else (end - AlignDown(virt)) / PAGE_SIZE
  }

  /** The `n` pages from `start` on lie above the limit of direct copies and within 48 bits. */
  predicate High(start: nat, n: nat) { IDENTITY_MAP_LIMIT <= start && start + n * PAGE_SIZE <= 0x1_0000_0000_0000 }

  /**
    `paging_map_user_range`. The call is a run of deeds that enters fresh frames at
    consecutive pages, all of them when it succeeds. It fails only when tables or frames
    run out, and leaves the pages it has entered. The frames are zero if the window has
    its page table afterwards; otherwise no zeroing succeeded and all bytes are as before.
   */
  method MapUserRange(m: Machine, virt: U64, size: U64, flags: Flags, ghost src: Frame, ghost dst: Frame, ghost child: bool)
    returns (ok: bool, ghost t: Trace)
    requires m.Valid() && m.pml4 == Space(src, dst, child)
    modifies m`tables, m`place, m`data, m.frames.bits, m.frames`used
    ensures m.Valid() && Traced(t, old(m.State()), m.State(), src, dst, child, AlignDown(virt), flags)
    ensures |t.gs| <= Pages(virt, size) && (ok <==> |t.gs| == Pages(virt, size)) && (!ok ==> m.NearlyNoTable())
    ensures DataKept(old(m.frames.used), old(m.data), m.data)
    ensures if HasPt(m.tables, m.pml4, PageOf(WINDOW)) then AllZero(m.data, t.gs) else m.data == old(m.data)
    ensures old(LeavesOwned(m.State(), m.pml4)) ==> LeavesOwned(m.State(), m.pml4)
    ensures old(AllDirect(m.State(), m.pml4, m.frames.total)) && High(AlignDown(virt), Pages(virt, size)) ==>
      AllDirect(m.State(), m.pml4, m.frames.total)
  {
    hide Good, HasPt, PageOf, LeavesOwned, AllDirect, Traced, DataKept, AllZero, Content, Space, AlignDown, AddrAt;
    hide Machine.NearlyNoTable, High, BeyondUsed, Pages;
    ghost var s0, d0, n := m.State(), m.data, Pages(virt, size);
    ghost var s := virt / PAGE_SIZE;
    RangePages(virt, size);
    var addr, end := AlignDown(virt), AlignDown((virt + size + PAGE_SIZE - 1) % TWO64);
    t := Trace([s0], [], []);
    TraceStarts(s0, src, dst, child, addr, flags);
    SameData(s0.used, d0);
    NoneZero(d0);
    while addr < end
      invariant addr == (s + |t.gs|) * PAGE_SIZE && |t.gs| <= n
      invariant m.Valid() && Traced(t, s0, m.State(), src, dst, child, AlignDown(virt), flags)
      invariant DataKept(s0.used, d0, m.data)
      invariant if HasPt(m.tables, m.pml4, PageOf(WINDOW)) || |t.gs| == 0 then AllZero(m.data, t.gs) else m.data == d0
      invariant !HasPt(m.tables, m.pml4, PageOf(WINDOW)) ==> m.data == d0
      invariant |t.gs| > 0 ==> HasPt(m.tables, m.pml4, PageOf(WINDOW)) || m.Starved(PageOf(WINDOW))
      invariant LeavesOwned(s0, m.pml4) ==> LeavesOwned(m.State(), m.pml4)
      invariant AllDirect(s0, m.pml4, m.frames.total) && High(AlignDown(virt), n) ==>
        AllDirect(m.State(), m.pml4, m.frames.total)
      decreases end - addr
    {
      ghost var s1, d1, t1 := m.State(), m.data, t;
      TracedFacts(t, s0, s1, src, dst, child, AlignDown(virt), flags);
      PageNumber(s + |t.gs|);
      AddrSmall(AlignDown(virt), |t.gs|);
      if High(AlignDown(virt), n) { HighWithin(AlignDown(virt), n, |t.gs|); }
      ok, t := MapFreshPage(m, addr, flags, false, src, dst, child, s0, t, AlignDown(virt));
      DataChain(s0.used, s1.used, d0, d1, m.data);
      if HasPt(m.tables, m.pml4, PageOf(WINDOW)) {
        StillZero(d1, m.data, s1.used, t1.gs);
        if ok {
          OneMoreZero(d1, m.data, s1.used, t1.gs, t.gs);
        }
      }
      if !ok {
        return;
      }
      addr := addr + PAGE_SIZE;
    }
    return true, t;
  }

  lemma RangePages(virt: U64, size: U64)
    ensures var end, n := AlignDown((virt + size + PAGE_SIZE - 1) % TWO64), Pages(virt, size);
      AlignDown(virt) == virt / PAGE_SIZE * PAGE_SIZE
      && (if end <= AlignDown(virt) then n == 0 else end == (virt / PAGE_SIZE + n) * PAGE_SIZE) && end < TWO64
  {
    var e := (virt + size + PAGE_SIZE - 1) % TWO64;
    var last, first := e / PAGE_SIZE, virt / PAGE_SIZE;
    if last > first {
      PageNumber(last - first);
      assert AlignDown(e) - AlignDown(virt) == (last - first) * PAGE_SIZE;
    }
  }

  lemma AddrSmall(start: nat, i: nat)
    requires start + i * PAGE_SIZE < TWO64
    ensures AddrAt(start, i) == start + i * PAGE_SIZE
  {
  }

  lemma HighWithin(start: nat, n: nat, i: nat)
    requires High(start, n) && i < n
    ensures IDENTITY_MAP_LIMIT <= start + i * PAGE_SIZE < 0x1_0000_0000_0000
  {
  }

  lemma HighAddr(start: nat, n: nat)
    requires High(start, n + 1)
    ensures IDENTITY_MAP_LIMIT <= AddrAt(start, n) < 0x1_0000_0000_0000 && High(start, n)
  {
    AddrSmall(start, n);
  }

  /** `(addr + PAGE_SIZE - 1) & PAGE_MASK`, but not below `addr` where that wraps around. */
  function NewBreak(addr: U64): U64 {
    var up := AlignDown((addr + PAGE_SIZE - 1) % TWO64);
    DownAligned((addr + PAGE_SIZE - 1) % TWO64);
    if up < addr then addr else up
  }

  lemma {:induction false} UsedBound(used: set<nat>, n: nat)
    requires forall f :: f in used ==> f < n
    ensures |used| <= n
  {
    if n > 0 {
      UsedBound(used - {n - 1}, n - 1);
      assert n - 1 in used ==> used == used - {n - 1} + {n - 1};
      assert n - 1 !in used ==> used == used - {n - 1};
    } else {
      assert used == {};
    }
  }

  lemma MoreUsed(used: set<nat>, more: set<nat>, g: nat)
    requires used <= more && g in more && g !in used && forall f :: f in more ==> f < MAX_FRAMES
    ensures |used| < |more| <= MAX_FRAMES
  {
    UsedBound(more, MAX_FRAMES);
    SubsetSize(used, more - {g});
  }

  lemma {:induction false} SubsetSize(a: set<nat>, b: set<nat>)
    requires a <= b
    ensures |a| <= |b|
  {
    if a != {} {
      var x :| x in a;
      SubsetSize(a - {x}, b - {x});
    }
  }

  /** The break lies below `addr` before each of the first `n` pages is entered. */
  ghost predicate Needed(brk: U64, n: nat, addr: nat) { forall k :: 0 <= k < n ==> AddrAt(brk, k) < addr }

  lemma NoneNeeded(brk: U64, addr: nat)
    ensures Needed(brk, 0, addr)
  {
  }

  lemma OneMoreNeeded(brk: U64, n: nat, addr: nat)
    requires Needed(brk, n, addr) && AddrAt(brk, n) < addr
    ensures Needed(brk, n + 1, addr)
  {
    hide AddrAt;
  }

  /** The new break is the next multiple of 4096, or the address itself where that wraps around. */
  lemma NewBreakIs(addr: U64)
    ensures addr + 4095 < TWO64 ==> addr <= NewBreak(addr) < addr + 4096 && NewBreak(addr) % 4096 == 0
    ensures addr + 4095 >= TWO64 ==> NewBreak(addr) == addr
  {
  }

  /** The pages of a range are those that it meets, unless its end wraps around; then there are none. */
  lemma PagesMeet(virt: U64, size: U64, a: nat)
    requires size > 0
    ensures virt + size + 4095 < TWO64 ==>
      (virt / 4096 * 4096 <= a < virt / 4096 * 4096 + Pages(virt, size) * 4096 <==> virt / 4096 <= a / 4096 && a / 4096 * 4096 < virt + size)
    ensures virt + size + 4095 >= TWO64 && size <= TWO64 - 4096 ==> Pages(virt, size) == 0
  {
  }

  /**
    `sys_brk` for a process whose break is `brk`: the run of deeds that enters zeroed
    frames page by page up to `addr`. When frames or tables run out the pages entered so
    far stay, the break stays behind them, and the call returns the old break. A break
    that is lowered keeps its pages.
   */
  method SysBrk(m: Machine, brk: U64, addr: U64, ghost src: Frame, ghost dst: Frame, ghost child: bool)
    returns (brk': U64, r: U64, ghost t: Trace)
    requires m.Valid() && m.pml4 == Space(src, dst, child)
    modifies m`tables, m`place, m`data, m.frames.bits, m.frames`used
    ensures m.Valid() && Traced(t, old(m.State()), m.State(), src, dst, child, brk, PRESENT_WRITABLE)
    ensures DataKept(old(m.frames.used), old(m.data), m.data) && AllZero(m.data, t.gs)
    ensures addr < USER_BRK_START ==> brk' == r == brk && t.gs == []
    ensures addr >= USER_BRK_START ==>
      if AddrAt(brk, |t.gs|) >= addr then brk' == NewBreak(addr) && r == addr
      else brk' == AddrAt(brk, |t.gs|) && r == brk && (brk' % PAGE_SIZE != 0 || m.NearlyNoTable())
    ensures Needed(brk, |t.gs|, addr)
    ensures old(LeavesOwned(m.State(), m.pml4)) ==> LeavesOwned(m.State(), m.pml4)
    ensures old(AllDirect(m.State(), m.pml4, m.frames.total)) && High(brk, |t.gs|) ==> AllDirect(m.State(), m.pml4, m.frames.total)
  {
    hide Good, HasPt, PageOf, LeavesOwned, AllDirect, Traced, DataKept, AllZero, Content, Space, AlignDown, BeyondUsed, NewBreak, AddrAt, Needed;
    AddrNext(brk, 0);
    NoneNeeded(brk, addr);
    ghost var s0, d0 := m.State(), m.data;
    t := Trace([s0], [], []);
    TraceStarts(s0, src, dst, child, brk, PRESENT_WRITABLE);
    SameData(s0.used, d0);
    NoneZero(d0);
    brk', r := brk, brk;
    if addr == 0 || addr < USER_BRK_START {
      return;
    }
    UsedBound(m.frames.used, MAX_FRAMES);
    while brk' < addr
      invariant brk' == AddrAt(brk, |t.gs|) && |m.frames.used| <= MAX_FRAMES
      invariant m.Valid() && Traced(t, s0, m.State(), src, dst, child, brk, PRESENT_WRITABLE)
      invariant DataKept(s0.used, d0, m.data) && AllZero(m.data, t.gs) && Needed(brk, |t.gs|, addr)
      invariant LeavesOwned(s0, m.pml4) ==> LeavesOwned(m.State(), m.pml4)
      invariant AllDirect(s0, m.pml4, m.frames.total) && High(brk, |t.gs|) ==> AllDirect(m.State(), m.pml4, m.frames.total)
      decreases MAX_FRAMES - |m.frames.used|
    {
      ghost var s1, d1, t1 := m.State(), m.data, t;
      TracedFacts(t, s0, s1, src, dst, child, brk, PRESENT_WRITABLE);
      if High(brk, |t.gs| + 1) { HighAddr(brk, |t.gs|); }
      var ok;
      ok, t := MapFreshPage(m, brk', PRESENT_WRITABLE, true, src, dst, child, s0, t, brk);
      DataChain(s0.used, s1.used, d0, d1, m.data);
      StillZero(d1, m.data, s1.used, t1.gs);
      if !ok {
        return;
      }
      OneMoreZero(d1, m.data, s1.used, t1.gs, t.gs);
      OneMoreNeeded(brk, |t1.gs|, addr);
      TracedFacts(t, s0, m.State(), src, dst, child, brk, PRESENT_WRITABLE);
      MoreUsed(s1.used, m.frames.used, t.gs[|t1.gs|]);
      AddrNext(brk, |t1.gs|);
      brk' := (brk' + PAGE_SIZE) % TWO64;
    }
    brk', r := NewBreak(addr), addr;
  }

  // ----- What such a call means -----

  /** The run without its last deed. */
  lemma RunFront(vs: seq<Vm>, v: Vm, src: Frame, dst: Frame, xs: seq<Deed>)
    requires RunTo(vs, v, src, dst, xs) && xs != []
    ensures var n := |xs| - 1;
      RunTo(vs[..|vs| - 1], vs[n], src, dst, xs[..n]) && Step(vs[n], v, src, dst, xs[n]) && vs[..|vs| - 1][0] == vs[0]
  {
    hide Step;
    var n := |xs| - 1;
    forall i | 0 <= i < n
      ensures Step(vs[..|vs| - 1][i], vs[..|vs| - 1][i + 1], src, dst, xs[..n][i])
    {
      assert Step(vs[i], vs[i + 1], src, dst, xs[i]);
    }
    assert Step(vs[n], vs[n + 1], src, dst, xs[n]);
  }

  /** The page of the `i`th frame. */
  function PageAt(start: nat, i: nat): Page { PageOf(AddrAt(start, i)) }

  lemma PagesDiffer(start: nat, i: nat, j: nat)
    requires start % PAGE_SIZE == 0 && i < j && start + (j + 1) * PAGE_SIZE <= 0x1_0000_0000_0000
    ensures PageAt(start, i) != PageAt(start, j)
  {
    hide PageOf, Num;
    var n := start / PAGE_SIZE;
    NumberOfPage(n + i);
    NumberOfPage(n + j);
  }

  lemma NumberOfPage(n: nat)
    requires (n + 1) * PAGE_SIZE <= 0x1_0000_0000_0000
    ensures Num(PageOf(n * PAGE_SIZE)) == n
  {
    hide PageOf, Num;
    Boot.NumOfAddress(n * PAGE_SIZE);
    PageNumber(n);
  }

  /** The page maps `g` with the flags given, for user mode as far as the links above it allow. */
  predicate MapsFresh(m: Mapping, g: Frame, flags: Flags) {
    exists user: bool :: m == LeafMapping(Entry(g, flags.(user := true)), user)
  }

  /**
    After a run that enters the frames `gs` at consecutive pages within 48 bits, each of
    these pages outside the window maps its frame, and every other page outside the
    window translates as before, from every root.
   */
  lemma {:induction false} PagesAreMapped(vs: seq<Vm>, v: Vm, src: Frame, dst: Frame, xs: seq<Deed>, gs: seq<Frame>,
                                         child: bool, start: nat, flags: Flags, r: Frame, p: Page)
    requires RunTo(vs, v, src, dst, xs) && Named(xs) == Entries(gs, child, start, flags) && !IsWindow(p)
    requires start % PAGE_SIZE == 0 && start + |gs| * PAGE_SIZE <= 0x1_0000_0000_0000 && IsRoot(vs[0].place, r)
    ensures (forall i :: 0 <= i < |gs| ==> PageAt(start, i) != p) ==> Walk(v.ts, r, p) == Walk(vs[0].ts, r, p)
    ensures r == Space(src, dst, child) ==> forall i :: 0 <= i < |gs| && PageAt(start, i) == p ==> MapsFresh(Walk(v.ts, r, p), gs[i], flags)
    ensures IsRoot(v.place, r)
    decreases |xs|
  {
    hide Walk, Step, Run, PageOf, MapsFresh, PageAt;
    NamedAndEntries(xs, gs, child, start, flags);
    RunLength(vs, src, dst, xs);
    if xs != [] {
      var n := |xs| - 1;
      RunFront(vs, v, src, dst, xs);
      var gs' := if xs[n].Other? then gs else gs[..|gs| - 1];
      PagesAreMapped(vs[..|vs| - 1], vs[n], src, dst, xs[..n], gs', child, start, flags, r, p);
      LastDeed(vs[n], v, src, dst, xs[n], gs, gs', child, start, flags, r, p);
    }
  }

  lemma NamedAndEntries(xs: seq<Deed>, gs: seq<Frame>, child: bool, start: nat, flags: Flags)
    requires Named(xs) == Entries(gs, child, start, flags)
    ensures xs == [] ==> gs == []
    ensures xs != [] ==>
      var n := |xs| - 1;
      if xs[n].Other? then
        Named(xs[..n]) == Entries(gs, child, start, flags)
      else
        gs != [] && Named(xs[..n]) == Entries(gs[..|gs| - 1], child, start, flags)
        && xs[n] == Enter(child, PageAt(start, |gs| - 1), Entry(gs[|gs| - 1], flags.(user := true)))
  {
    hide PageOf;
    if xs != [] && !xs[|xs| - 1].Other? && gs != [] {
      var a, b := Named(xs[..|xs| - 1]), Entries(gs[..|gs| - 1], child, start, flags);
      var x := Enter(child, PageAt(start, |gs| - 1), Entry(gs[|gs| - 1], flags.(user := true)));
      assert a + [xs[|xs| - 1]] == b + [x];
      SnocInjective(a, xs[|xs| - 1], b, x);
    }
  }

  lemma SnocInjective<T>(a: seq<T>, x: T, b: seq<T>, y: T)
    requires a + [x] == b + [y]
    ensures a == b && x == y
  {
    assert |a| == |b|;
    assert (a + [x])[..|a|] == a && (b + [y])[..|b|] == b && (a + [x])[|a|] == x && (b + [y])[|b|] == y;
  }

  lemma LastDeed(v: Vm, w: Vm, src: Frame, dst: Frame, x: Deed, gs: seq<Frame>, gs': seq<Frame>,
                 child: bool, start: nat, flags: Flags, r: Frame, p: Page)
    requires Step(v, w, src, dst, x) && IsRoot(v.place, r) && !IsWindow(p)
    requires if x.Other? then gs' == gs
             else gs != [] && gs' == gs[..|gs| - 1] && x == Enter(child, PageAt(start, |gs| - 1), Entry(gs[|gs| - 1], flags.(user := true)))
    requires start % PAGE_SIZE == 0 && start + |gs| * PAGE_SIZE <= 0x1_0000_0000_0000
    requires r == Space(src, dst, child) ==> forall i :: 0 <= i < |gs'| && PageAt(start, i) == p ==> MapsFresh(Walk(v.ts, r, p), gs'[i], flags)
    ensures x.Other? || PageAt(start, |gs| - 1) != p ==> Walk(w.ts, r, p) == Walk(v.ts, r, p)
    ensures r == Space(src, dst, child) ==> forall i :: 0 <= i < |gs| && PageAt(start, i) == p ==> MapsFresh(Walk(w.ts, r, p), gs[i], flags)
    ensures IsRoot(w.place, r)
  {
    hide Walk, PageOf, Good, UpperUserAfter, PageAt, StoreAt, HasPt, LeafMapping;
    StepKeepsRoot(v, w, src, dst, x, r);
    if x.Other? || x.q != p {
      UntouchedStep(v, w, src, dst, x, r, p);
    }
    if r == Space(src, dst, child) {
      forall i | 0 <= i < |gs| && PageAt(start, i) == p
        ensures MapsFresh(Walk(w.ts, r, p), gs[i], flags)
      {
        if !x.Other? && i < |gs| - 1 {
          PagesDiffer(start, i, |gs| - 1);
        }
      }
    }
  }

  lemma StepKeepsRoot(a: Vm, b: Vm, src: Frame, dst: Frame, x: Deed, r: Frame)
    requires Step(a, b, src, dst, x) && IsRoot(a.place, r)
    ensures IsRoot(b.place, r)
  {
    hide Good, Walk, HasPt;
  }

  /** Runs of several calls join. */
  lemma RunsJoin(us: seq<Vm>, vs: seq<Vm>, v: Vm, w: Vm, src: Frame, dst: Frame, xs: seq<Deed>, ys: seq<Deed>)
    requires RunTo(us, v, src, dst, xs) && RunTo(vs, w, src, dst, ys) && vs[0] == v
    ensures RunTo(us + vs[1..], w, src, dst, xs + ys)
  {
    hide Step;
    var all := us + vs[1..];
    forall i | 0 <= i < |xs| + |ys|
      ensures Step(all[i], all[i + 1], src, dst, (xs + ys)[i])
    {
      if i < |xs| {
        assert Step(us[i], us[i + 1], src, dst, xs[i]);
      } else {
        assert Step(vs[i - |xs|], vs[i - |xs| + 1], src, dst, ys[i - |xs|]);
      }
    }
  }
}
