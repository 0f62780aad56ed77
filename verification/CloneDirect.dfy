/**
  When copying a frame at addresses equal to its physical address is right. Below
  IDENTITY_MAP_LIMIT the clone copies through the live page tables, at the physical
  addresses of both frames, so it depends on what these addresses are mapped to.
 */
module CloneDirect {
  import opened Frames
  import opened PageTables
  import opened Paging
  import opened CloneSpec
  import Boot
  import Paths

  /** The addresses of both frames lead to the frames themselves, and the target may be written. */
  predicate Straight(ts: Tables, root: Frame, dst: Frame, src: Frame) {
    && MappedToItself(ts, root, src * PAGE_SIZE) && MappedToItself(ts, root, dst * PAGE_SIZE)
    && Walk(ts, root, PageOf(dst * PAGE_SIZE)).writable
  }

  /** Memory after the direct copy; none when one of the accesses faults. */
  function DirectCopy(ts: Tables, root: Frame, data: map<Frame, Bytes>, dst: Frame, src: Frame): Paths.Option<map<Frame, Bytes>>
    requires dst * PAGE_SIZE < TWO64 && src * PAGE_SIZE < TWO64
  {
    var to, from := Walk(ts, root, PageOf(dst * PAGE_SIZE)), Walk(ts, root, PageOf(src * PAGE_SIZE));
    if to.Unmapped? || from.Unmapped? || !to.writable then Paths.None
    else Paths.Some(data[to.frame := Content(data, from.frame)])
  }

  function Ones(): Bytes { seq(4096, _ => 1) }

  /** The direct copy is a copy of frame `src` to frame `dst`, whatever memory holds, if and only if both are mapped to themselves. */
  lemma DirectCopyIff(ts: Tables, root: Frame, dst: Frame, src: Frame)
    requires dst * PAGE_SIZE < TWO64 && src * PAGE_SIZE < TWO64
    ensures (forall data :: CopiesFrame(ts, root, data, dst, src)) <==> Straight(ts, root, dst, src)
  {
    hide Walk, PageOf;
    PageNumber(dst);
    PageNumber(src);
    if forall data :: CopiesFrame(ts, root, data, dst, src) {
      assert CopiesFrame(ts, root, map[], dst, src);
      var ones := map[src := Ones()];
      assert CopiesFrame(ts, root, ones, dst, src);
      CopiedContent(ts, root, ones, dst, src);
      CopiedContent(ts, root, map[], dst, src);
    }
  }

  predicate CopiesFrame(ts: Tables, root: Frame, data: map<Frame, Bytes>, dst: Frame, src: Frame)
    requires dst * PAGE_SIZE < TWO64 && src * PAGE_SIZE < TWO64
  {
    DirectCopy(ts, root, data, dst, src) == Paths.Some(data[dst := Content(data, src)])
  }

  lemma CopiedContent(ts: Tables, root: Frame, data: map<Frame, Bytes>, dst: Frame, src: Frame)
    requires dst * PAGE_SIZE < TWO64 && src * PAGE_SIZE < TWO64 && CopiesFrame(ts, root, data, dst, src)
    ensures var to, from := Walk(ts, root, PageOf(dst * PAGE_SIZE)), Walk(ts, root, PageOf(src * PAGE_SIZE));
      && to.Mapped? && from.Mapped? && to.writable
      && (data == map[] ==> to.frame == dst)
      && (data == map[src := Ones()] && to.frame == dst ==> from.frame == src)
  {
    hide Walk, PageOf;
    var to, from := Walk(ts, root, PageOf(dst * PAGE_SIZE)), Walk(ts, root, PageOf(src * PAGE_SIZE));
    var e := data[to.frame := Content(data, from.frame)];
    assert e == data[dst := Content(data, src)];
    assert to.frame in e && dst in e;
    if from.Mapped? {
      OnlyOnes(src, from.frame);
    }
  }

  lemma OnlyOnes(src: Frame, f: Frame)
    ensures Content(map[src := Ones()], src) == Ones()
    ensures Content(map[src := Ones()], f) == Ones() ==> f == src
  {
    assert Ones()[0] == 1;
    assert f != src ==> Content(map[src := Ones()], f)[0] == 0;
  }

  // ----- A condition on the whole address space -----

  ghost predicate BacksUser(ts: Tables, root: Frame, f: Frame) {
    exists q :: UserPage(Walk(ts, root, q)) && Walk(ts, root, q).frame == f
  }

  /** The frame is below the limit, and a clone may copy to it or from it. */
  ghost predicate MayCopy(v: Vm, root: Frame, total: nat, f: Frame) {
    f * PAGE_SIZE < IDENTITY_MAP_LIMIT && ((f !in v.used && f < total) || BacksUser(v.ts, root, f))
  }

  /** Mapped to itself, writable, and not in the window, which changes during the clone. */
  predicate Direct(ts: Tables, root: Frame, f: Frame) {
    f * PAGE_SIZE < TWO64 && MappedToItself(ts, root, f * PAGE_SIZE)
    && Walk(ts, root, PageOf(f * PAGE_SIZE)).writable && !IsWindow(PageOf(f * PAGE_SIZE))
  }

  /** Every frame below the limit that is free or backs a user page can be reached at its own address. */
  ghost predicate DirectOk(v: Vm, root: Frame, total: nat) {
    forall f: Frame :: MayCopy(v, root, total, f) ==> Direct(v.ts, root, f)
  }

  /** The condition lasts for as long as a clone takes. */
  lemma DirectKept(a: Vm, b: Vm, root: Frame, total: nat)
    requires DirectOk(a, root, total) && SourceKept(a, b, root)
    ensures DirectOk(b, root, total)
  {
    hide Walk, PageOf;
    forall f: Frame | MayCopy(b, root, total, f)
      ensures Direct(b.ts, root, f)
    {
      if BacksUser(b.ts, root, f) {
        var q :| UserPage(Walk(b.ts, root, q)) && Walk(b.ts, root, q).frame == f;
        assert UserPage(Walk(a.ts, root, q)) && Walk(a.ts, root, q).frame == f;
      }
      assert MayCopy(a, root, total, f) && Direct(a.ts, root, f);
      assert Walk(b.ts, root, PageOf(f * PAGE_SIZE)) == Walk(a.ts, root, PageOf(f * PAGE_SIZE));
    }
  }

  /** The copy from a user page to a frame that was free is straight. */
  lemma CopyIsStraight(v: Vm, root: Frame, total: nat, dst: Frame, src: Frame)
    requires DirectOk(v, root, total) && dst !in v.used && dst < total && BacksUser(v.ts, root, src)
    requires dst * PAGE_SIZE < IDENTITY_MAP_LIMIT && src * PAGE_SIZE < IDENTITY_MAP_LIMIT
    ensures Straight(v.ts, root, dst, src)
  {
    hide Walk, PageOf, BacksUser;
    assert MayCopy(v, root, total, dst) && MayCopy(v, root, total, src);
    assert Direct(v.ts, root, dst) && Direct(v.ts, root, src);
  }

  // ----- When it holds, and when it does not -----

  /** After boot the condition holds on a machine whose memory ends at 64 MiB, as far as the identity map reaches. */
  lemma BootIsDirect(v: Vm, root: Frame, total: nat)
    requires total <= 0x4000 && Boot.OnlyIdentity(v.ts, root, 0x4000)
    ensures DirectOk(v, root, total)
  {
    hide Walk, PageOf;
    forall f: Frame | MayCopy(v, root, total, f)
      ensures Direct(v.ts, root, f)
    {
      assert forall q :: !UserPage(Walk(v.ts, root, q));
      IdentityIsDirect(v, root, f);
    }
  }

  lemma IdentityIsDirect(v: Vm, root: Frame, f: Frame)
    requires Boot.OnlyIdentity(v.ts, root, 0x4000) && f < 0x4000
    ensures Direct(v.ts, root, f)
  {
    hide Walk, PageOf;
    Boot.NumOfAddress(f * PAGE_SIZE);
    PageNumber(f);
  }

  /** A free frame below the limit that the identity map does not reach breaks the condition. */
  lemma UnmappedFrameBreaks(v: Vm, root: Frame, total: nat, f: Frame)
    requires f !in v.used && f < total && f * PAGE_SIZE < IDENTITY_MAP_LIMIT
    requires Walk(v.ts, root, PageOf(f * PAGE_SIZE)).Unmapped?
    ensures !DirectOk(v, root, total)
    ensures forall data, src: Frame :: src * PAGE_SIZE < TWO64 ==> DirectCopy(v.ts, root, data, f, src) == Paths.None
  {
    assert MayCopy(v, root, total, f);
  }

  /**
    The page at 0x900000 maps a frame `g`, open to user mode or not. The condition is
    then broken as long as frame 0x900 is free, and a copy to frame 0x900 lands in `g`.
   */
  lemma MappingOverAFreeFrame(v: Vm, root: Frame, total: nat, g: Frame, user: bool, data: map<Frame, Bytes>, src: Frame)
    requires 0x900 !in v.used && 0x900 < total && g != 0x900
    requires Walk(v.ts, root, PageOf(0x90_0000)) == Mapped(g, PRESENT_WRITABLE_USER, user, true, false)
    requires src * PAGE_SIZE < IDENTITY_MAP_LIMIT && MappedToItself(v.ts, root, src * PAGE_SIZE)
    ensures !DirectOk(v, root, total) && !Straight(v.ts, root, 0x900, src)
    ensures DirectCopy(v.ts, root, data, 0x900, src) == Paths.Some(data[g := Content(data, src)])
    ensures Content(data[g := Content(data, src)], 0x900) == Content(data, 0x900)
  {
    hide Walk, PageOf;
    PageNumber(src);
    assert 0x900 * PAGE_SIZE == 0x90_0000 && 0x90_0000 / PAGE_SIZE == 0x900;
    assert MayCopy(v, root, total, 0x900);
  }

  /**
    The first call of mmap with the address hint 0x900000: `b` is what mapping the page
    for user mode leaves of the state after boot, with the frame `g` it took. The tables
    above the page are those of the boot, so `user` is what their links allow. Before the
    call the condition holds, after it the condition is broken, and every direct copy to
    frame 0x900 lands in `g`.
   */
  lemma MmapAfterBoot(a: Vm, b: Vm, root: Frame, total: nat, g: Frame, data: map<Frame, Bytes>, src: Frame)
    requires Boot.OnlyIdentity(a.ts, root, 0x4000) && IsRoot(a.place, root) && 0x900 < total <= 0x4000
    requires OnlyPage(a, b, PageOf(0x90_0000)) && 0x900 !in b.used && g in b.used && src < 0x4000 && src != 0x900
    requires Walk(b.ts, root, PageOf(0x90_0000))
          == LeafMapping(Entry(g, PRESENT_WRITABLE_USER), UpperUserAfter(a.ts, root, PageOf(0x90_0000), true))
    ensures DirectOk(a, root, total) && !DirectOk(b, root, total)
    ensures DirectCopy(b.ts, root, data, 0x900, src) == Paths.Some(data[g := Content(data, src)])
    ensures Content(data[g := Content(data, src)], 0x900) == Content(data, 0x900)
  {
    hide Walk, PageOf, UpperUserAfter, DirectOk;
    BootIsDirect(a, root, total);
    IdentityIsDirect(a, root, src);
    Boot.NumOfAddress(src * PAGE_SIZE);
    Boot.NumOfAddress(0x90_0000);
    PageNumber(src);
    var user := UpperUserAfter(a.ts, root, PageOf(0x90_0000), true);
    MappingOverAFreeFrame(b, root, total, g, user, data, src);
  }

  // ----- What keeps it -----

  /**
    One page changes, and if it is open to user mode then for a frame that can be reached
    at its own address, such as any that was free. The condition stays if and only if the page is not the own
    address of a frame that a clone may copy, or maps that frame to itself.
   */
  lemma EnterKeepsIff(a: Vm, b: Vm, root: Frame, total: nat, p: Page)
    requires DirectOk(a, root, total) && IsRoot(a.place, root) && a.used <= b.used && OnlyPage(a, b, p)
    requires var w := Walk(b.ts, root, p);
      UserPage(w) && w.frame * PAGE_SIZE < IDENTITY_MAP_LIMIT ==> Direct(a.ts, root, w.frame)
    ensures DirectOk(b, root, total) <==>
      forall f: Frame :: MayCopy(b, root, total, f) && PageOf(f * PAGE_SIZE) == p ==> Direct(b.ts, root, f)
  {
    hide Walk, PageOf;
    forall f: Frame | MayCopy(b, root, total, f) && PageOf(f * PAGE_SIZE) != p
      ensures Direct(b.ts, root, f)
    {
      if BacksUser(b.ts, root, f) {
        var q :| UserPage(Walk(b.ts, root, q)) && Walk(b.ts, root, q).frame == f;
        assert q != p ==> BacksUser(a.ts, root, f) && MayCopy(a, root, total, f);
      } else {
        assert MayCopy(a, root, total, f);
      }
      assert Direct(a.ts, root, f);
    }
  }

  // ----- An invariant that implies it -----

  /** The leaf of the page is for user mode, whether the links above it open it or not. */
  predicate UserLeaf(m: Mapping) { m.Mapped? && m.flags.user }

  lemma OpenIsLeaf(ts: Tables, root: Frame, q: Page)
    ensures UserPage(Walk(ts, root, q)) ==> UserLeaf(Walk(ts, root, q))
  {
  }

  /** The frames of pages for user mode are used and hold no tables; frame numbers have 40 bits. */
  ghost predicate LeavesOwned(v: Vm, root: Frame) { forall q :: LeafOwned(v, Walk(v.ts, root, q)) }

  predicate LeafOwned(v: Vm, m: Mapping) {
    UserLeaf(m) ==> m.frame in v.used && m.frame !in v.ts && m.frame < 0x100_0000_0000
  }

  /** Below the limit, frames that are free or back a page for user mode can be reached at their own addresses. */
  ghost predicate AllDirect(v: Vm, root: Frame, total: nat) {
    && (forall q :: LeafDirect(v.ts, root, Walk(v.ts, root, q)))
    && (forall f: nat :: FreeDirect(v, root, total, f))
  }

  predicate LeafDirect(ts: Tables, root: Frame, m: Mapping) {
    UserLeaf(m) && m.frame * PAGE_SIZE < IDENTITY_MAP_LIMIT ==> Direct(ts, root, m.frame)
  }

  predicate FreeDirect(v: Vm, root: Frame, total: nat, f: nat) {
    f !in v.used && f < total && f * PAGE_SIZE < IDENTITY_MAP_LIMIT ==> Direct(v.ts, root, f)
  }

  /** What a clone needs of the space it copies follows. */
  lemma ReadyToClone(v: Vm, root: Frame, total: nat)
    ensures LeavesOwned(v, root) ==> UserFramesOk(v, root)
    ensures AllDirect(v, root, total) ==> DirectOk(v, root, total)
  {
    hide Walk, Direct;
    forall q
      ensures UserPage(Walk(v.ts, root, q)) ==> UserLeaf(Walk(v.ts, root, q))
    {
      OpenIsLeaf(v.ts, root, q);
    }
    if LeavesOwned(v, root) {
      assert forall q :: LeafOwned(v, Walk(v.ts, root, q));
    }
    if AllDirect(v, root, total) {
      forall f: Frame | MayCopy(v, root, total, f)
        ensures Direct(v.ts, root, f)
      {
        assert FreeDirect(v, root, total, f);
        if BacksUser(v.ts, root, f) {
          var q :| UserPage(Walk(v.ts, root, q)) && Walk(v.ts, root, q).frame == f;
          assert LeafDirect(v.ts, root, Walk(v.ts, root, q));
        }
      }
    }
  }

  /** It holds after boot on a machine with at most 64 MiB. */
  lemma BootIsReady(v: Vm, root: Frame, total: nat)
    requires total <= 0x4000 && Boot.OnlyIdentity(v.ts, root, 0x4000)
    ensures LeavesOwned(v, root) && AllDirect(v, root, total)
  {
    hide Walk, Direct;
    assert forall q :: !UserLeaf(Walk(v.ts, root, q));
    forall f: nat
      ensures FreeDirect(v, root, total, f)
    {
      if f < total {
        IdentityIsDirect(v, root, f);
      }
    }
  }

  /** A frame is taken. */
  lemma TakenKeeps(v: Vm, root: Frame, total: nat, g: Frame)
    ensures var w := v.(used := v.used + {g});
      (LeavesOwned(v, root) ==> LeavesOwned(w, root)) && (AllDirect(v, root, total) ==> AllDirect(w, root, total))
  {
    hide Walk, Direct;
    var w := v.(used := v.used + {g});
    if LeavesOwned(v, root) {
      assert forall q :: LeafOwned(v, Walk(v.ts, root, q));
    }
    if AllDirect(v, root, total) {
      assert forall q :: LeafDirect(w.ts, root, Walk(w.ts, root, q));
      forall f: nat
        ensures FreeDirect(w, root, total, f)
      {
        assert FreeDirect(v, root, total, f);
      }
    }
  }

  lemma DirectStays(a: Vm, b: Vm, root: Frame, f: Frame)
    requires SourceKept(a, b, root) && Direct(a.ts, root, f)
    ensures Direct(b.ts, root, f)
  {
    hide Walk, PageOf;
    assert Walk(b.ts, root, PageOf(f * PAGE_SIZE)) == Walk(a.ts, root, PageOf(f * PAGE_SIZE));
  }

  /** The window is used, or tables are created. */
  lemma WindowKeeps(a: Vm, b: Vm, root: Frame, total: nat)
    requires Good(a) && Good(b) && Extends(a, b) && SourceKept(a, b, root)
    ensures (LeavesOwned(a, root) ==> LeavesOwned(b, root)) && (AllDirect(a, root, total) ==> AllDirect(b, root, total))
  {
    hide Walk, Direct, Good, Extends;
    NewTablesWereFree(a, b);
    if LeavesOwned(a, root) {
      forall q
        ensures LeafOwned(b, Walk(b.ts, root, q))
      {
        assert LeafOwned(a, Walk(a.ts, root, q));
      }
    }
    SourceKeepsDirect(a, b, root, total);
  }

  lemma SourceKeepsDirect(a: Vm, b: Vm, root: Frame, total: nat)
    requires SourceKept(a, b, root)
    ensures AllDirect(a, root, total) ==> AllDirect(b, root, total)
  {
    hide Walk, Direct;
    if AllDirect(a, root, total) {
      forall q
        ensures LeafDirect(b.ts, root, Walk(b.ts, root, q))
      {
        var m := Walk(b.ts, root, q);
        assert LeafDirect(a.ts, root, Walk(a.ts, root, q));
        if UserLeaf(m) && m.frame * PAGE_SIZE < IDENTITY_MAP_LIMIT {
          DirectStays(a, b, root, m.frame);
        }
      }
      forall f: nat
        ensures FreeDirect(b, root, total, f)
      {
        assert FreeDirect(a, root, total, f);
        if f !in b.used && f < total && f * PAGE_SIZE < IDENTITY_MAP_LIMIT {
          DirectStays(a, b, root, f);
        }
      }
    }
  }

  /** A frame taken in state `a` is given back, no page having changed but the window's. */
  lemma GivenBackKeeps(a: Vm, v: Vm, root: Frame, total: nat, g: Frame)
    requires g !in a.used && SourceKept(a, v, root)
    ensures var w := v.(used := v.used - {g});
      (LeavesOwned(a, root) && LeavesOwned(v, root) ==> LeavesOwned(w, root)) && (AllDirect(a, root, total) ==> AllDirect(w, root, total))
  {
    hide Walk, Direct;
    var w := v.(used := v.used - {g});
    if LeavesOwned(a, root) && LeavesOwned(v, root) {
      forall q
        ensures LeafOwned(w, Walk(w.ts, root, q))
      {
        assert LeafOwned(a, Walk(a.ts, root, q)) && LeafOwned(v, Walk(v.ts, root, q));
      }
    }
    SourceKeepsDirect(a, w, root, total);
  }

  /** A page is entered, wherever it lies, for a used frame that holds no table. */
  lemma EnteredOwned(a: Vm, b: Vm, root: Frame, p: Page, g: Frame)
    requires Good(a) && Good(b) && Extends(a, b) && IsRoot(a.place, root) && OnlyPage(a, b, p) && LeavesOwned(a, root)
    requires Walk(b.ts, root, p).Mapped? ==> Walk(b.ts, root, p).frame == g
    requires g in a.used && g !in a.ts && g < 0x100_0000_0000
    ensures LeavesOwned(b, root)
  {
    hide Walk, Good, Extends;
    NewTablesWereFree(a, b);
    forall q
      ensures LeafOwned(b, Walk(b.ts, root, q))
    {
      assert LeafOwned(a, Walk(a.ts, root, q));
      assert q != p ==> Walk(b.ts, root, q) == Walk(a.ts, root, q);
    }
  }

  /** The own address of a frame below the limit is not that of a page above it. */
  lemma HighIsOther(f: Frame, addr: U64)
    requires f * PAGE_SIZE < IDENTITY_MAP_LIMIT <= addr < 0x1_0000_0000_0000
    ensures PageOf(f * PAGE_SIZE) != PageOf(addr)
  {
    hide PageOf;
    Boot.NumOfAddress(addr);
    Boot.NumOfAddress(f * PAGE_SIZE);
    PageNumber(f);
  }

  lemma DirectUnderEntry(a: Vm, b: Vm, root: Frame, addr: U64, f: Frame)
    requires IsRoot(a.place, root) && OnlyPage(a, b, PageOf(addr)) && Direct(a.ts, root, f)
    requires f * PAGE_SIZE < IDENTITY_MAP_LIMIT <= addr < 0x1_0000_0000_0000
    ensures Direct(b.ts, root, f)
  {
    hide Walk, PageOf;
    HighIsOther(f, addr);
    assert Walk(b.ts, root, PageOf(f * PAGE_SIZE)) == Walk(a.ts, root, PageOf(f * PAGE_SIZE));
  }

  /**
    A page above the limit is entered, as for the heap and the mappings of a program,
    for a frame that was free in state `a0` and taken since.
   */
  lemma EnteredDirect(a0: Vm, a: Vm, b: Vm, root: Frame, total: nat, addr: U64, g: Frame)
    requires AllDirect(a0, root, total) && AllDirect(a, root, total) && SourceKept(a0, a, root) && g !in a0.used && g < total
    requires IsRoot(a.place, root) && a.used <= b.used && OnlyPage(a, b, PageOf(addr)) && IDENTITY_MAP_LIMIT <= addr < 0x1_0000_0000_0000
    requires Walk(b.ts, root, PageOf(addr)).Mapped? ==> Walk(b.ts, root, PageOf(addr)).frame == g
    ensures AllDirect(b, root, total)
  {
    hide Walk, Direct, PageOf;
    assert FreeDirect(a0, root, total, g);
    forall q
      ensures LeafDirect(b.ts, root, Walk(b.ts, root, q))
    {
      var m := Walk(b.ts, root, q);
      if UserLeaf(m) && m.frame * PAGE_SIZE < IDENTITY_MAP_LIMIT {
        if q == PageOf(addr) {
          DirectStays(a0, a, root, g);
        } else {
          assert Walk(b.ts, root, q) == Walk(a.ts, root, q) && LeafDirect(a.ts, root, Walk(a.ts, root, q));
        }
        DirectUnderEntry(a, b, root, addr, m.frame);
      }
    }
    forall f: nat
      ensures FreeDirect(b, root, total, f)
    {
      assert FreeDirect(a, root, total, f);
      if f !in b.used && f < total && f * PAGE_SIZE < IDENTITY_MAP_LIMIT {
        DirectUnderEntry(a, b, root, addr, f);
      }
    }
  }

  /** A page of the image window is given to user mode at its own address, opening others whose leaves allow it. */
  ghost predicate Promoted(a: Vm, b: Vm, root: Frame, addr: U64) {
    && a.used == b.used && a.ts.Keys == b.ts.Keys && addr % PAGE_SIZE == 0 && USER_IMAGE_PHYS_START <= addr < USER_IMAGE_PHYS_END
    && Walk(b.ts, root, PageOf(addr)) == UserIdentity(addr, PRESENT)
    && forall q :: q != PageOf(addr) ==> Opened(Walk(a.ts, root, q), Walk(b.ts, root, q))
  }

  lemma PromotedDirect(a: Vm, b: Vm, root: Frame, addr: U64, f: Frame)
    requires Promoted(a, b, root, addr) && (f == addr / PAGE_SIZE || Direct(a.ts, root, f))
    ensures f * PAGE_SIZE < IDENTITY_MAP_LIMIT ==> Direct(b.ts, root, f)
  {
    hide Walk, PageOf;
    if f * PAGE_SIZE < IDENTITY_MAP_LIMIT {
      PageNumber(f);
      Boot.NumOfAddress(f * PAGE_SIZE);
      Boot.NumOfAddress(addr);
      if f == addr / PAGE_SIZE {
        assert f * PAGE_SIZE == addr && !IsWindow(PageOf(addr));
      } else {
        assert Opened(Walk(a.ts, root, PageOf(f * PAGE_SIZE)), Walk(b.ts, root, PageOf(f * PAGE_SIZE)));
      }
    }
  }

  lemma PromoteKeeps(a: Vm, b: Vm, root: Frame, total: nat, addr: U64)
    requires Promoted(a, b, root, addr) && addr / PAGE_SIZE in a.used && addr / PAGE_SIZE !in a.ts
    ensures (LeavesOwned(a, root) ==> LeavesOwned(b, root)) && (AllDirect(a, root, total) ==> AllDirect(b, root, total))
  {
    hide Walk, Direct, PageOf;
    forall q
      ensures UserLeaf(Walk(b.ts, root, q)) ==>
        Walk(b.ts, root, q).frame == addr / PAGE_SIZE || (UserLeaf(Walk(a.ts, root, q)) && Walk(a.ts, root, q).frame == Walk(b.ts, root, q).frame)
    {
      assert q != PageOf(addr) ==> Opened(Walk(a.ts, root, q), Walk(b.ts, root, q));
    }
    if LeavesOwned(a, root) {
      forall q
        ensures LeafOwned(b, Walk(b.ts, root, q))
      {
        assert LeafOwned(a, Walk(a.ts, root, q));
      }
    }
    if AllDirect(a, root, total) {
      forall q
        ensures LeafDirect(b.ts, root, Walk(b.ts, root, q))
      {
        assert LeafDirect(a.ts, root, Walk(a.ts, root, q));
        if UserLeaf(Walk(b.ts, root, q)) && Walk(b.ts, root, q).frame * PAGE_SIZE < IDENTITY_MAP_LIMIT {
          PromotedDirect(a, b, root, addr, Walk(b.ts, root, q).frame);
        }
      }
      forall f: nat
        ensures FreeDirect(b, root, total, f)
      {
        assert FreeDirect(a, root, total, f);
        if f !in b.used && f < total && f * PAGE_SIZE < IDENTITY_MAP_LIMIT {
          PromotedDirect(a, b, root, addr, f);
        }
      }
    }
  }

  /** What holds of user leaves and free frames is kept, on a machine of any size. */
  ghost predicate ReadyKept(a: Vm, b: Vm, root: Frame) {
    && (LeavesOwned(a, root) ==> LeavesOwned(b, root))
    && (forall total: nat :: AllDirect(a, root, total) ==> AllDirect(b, root, total))
  }

  lemma ReadyByWindow(a: Vm, b: Vm, root: Frame)
    requires Good(a) && Good(b) && Extends(a, b) && SourceKept(a, b, root)
    ensures ReadyKept(a, b, root)
  {
    hide LeavesOwned, AllDirect, Good, Extends, SourceKept;
    WindowKeeps(a, b, root, 0);
    forall total: nat
      ensures AllDirect(a, root, total) ==> AllDirect(b, root, total)
    {
      WindowKeeps(a, b, root, total);
    }
  }

  lemma ReadyByPromote(a: Vm, b: Vm, root: Frame, addr: U64)
    requires Promoted(a, b, root, addr) && addr / PAGE_SIZE in a.used && addr / PAGE_SIZE !in a.ts
    ensures ReadyKept(a, b, root)
  {
    hide LeavesOwned, AllDirect, Promoted;
    PromoteKeeps(a, b, root, 0, addr);
    forall total: nat
      ensures AllDirect(a, root, total) ==> AllDirect(b, root, total)
    {
      PromoteKeeps(a, b, root, total, addr);
    }
  }

  lemma ReadyChain(a: Vm, b: Vm, c: Vm, root: Frame)
    requires ReadyKept(a, b, root) && ReadyKept(b, c, root)
    ensures ReadyKept(a, c, root)
  {
    hide LeavesOwned, AllDirect;
  }

  lemma ReadySame(a: Vm, root: Frame)
    ensures ReadyKept(a, a, root)
  {
  }
}
