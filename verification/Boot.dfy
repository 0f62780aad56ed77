/**
  `paging_init` as a whole: the frame bitmap from the memory map, the tables of
  the boot code, and the 4 KiB identity map on top of them.
 */
module Boot {
  import opened Frames
  import opened PageTables
  import opened Paging

  const IDENTITY_4K_START: nat := 0x40_0000
  const IDENTITY_4K_END: nat := 0x400_0000

  lemma NumOfAddress(a: U64)
    requires a < 0x1_0000_0000_0000
    ensures Num(PageOf(a)) == a / PAGE_SIZE
  {
    var n := a / 0x1000;
    Quotients(a);
    NumOfIndices(n);
  }

  /** The quotients that the index macros shift out. */
  lemma Quotients(a: nat)
    ensures a / 0x20_0000 == a / 0x1000 / 512
    ensures a / 0x4000_0000 == a / 0x1000 / 512 / 512
    ensures a / 0x80_0000_0000 == a / 0x1000 / 512 / 512 / 512
  {
    QuotientBy2M(a);
    QuotientBy1G(a);
    QuotientBy512G(a);
  }

  lemma QuotientBy2M(a: nat)
    ensures a / 0x20_0000 == a / 0x1000 / 512
  {
  }

  lemma QuotientBy1G(a: nat)
    ensures a / 0x4000_0000 == a / 0x20_0000 / 512
  {
  }

  lemma QuotientBy512G(a: nat)
    ensures a / 0x80_0000_0000 == a / 0x4000_0000 / 512
  {
  }

  lemma NumOfIndices(n: nat)
    requires n < 0x10_0000_0000
    ensures Num(Page(n / 512 / 512 / 512 % 512, n / 512 / 512 % 512, n / 512 % 512, n % 512)) == n
  {
    var h, k := n / 512, n / 512 / 512;
    assert n == h * 512 + n % 512 && h == k * 512 + h % 512 && k == k / 512 * 512 + k % 512 && k / 512 < 512;
  }

  lemma NumIsInjective(p: Page, q: Page)
    requires Num(p) == Num(q)
    ensures p == q
  {
    LastDigit(Num(p), (p.i4 * 512 + p.i3) * 512 + p.i2, p.i1);
    LastDigit(Num(q), (q.i4 * 512 + q.i3) * 512 + q.i2, q.i1);
    LastDigit(Num(p) / 512, p.i4 * 512 + p.i3, p.i2);
    LastDigit(Num(q) / 512, q.i4 * 512 + q.i3, q.i2);
    LastDigit(Num(p) / 512 / 512, p.i4, p.i3);
    LastDigit(Num(q) / 512 / 512, q.i4, q.i3);
  }

  lemma LastDigit(n: nat, h: nat, d: Idx)
    requires n == h * 512 + d
    ensures n / 512 == h && n % 512 == d
  {
  }

  /** A kernel page mapped to itself. */
  function Identity(q: Page): Mapping { Mapped(Num(q), PRESENT_WRITABLE, false, true, false) }

  /** Page numbers in [first, upto) map to themselves, all others as in `a`, seen from `root`. */
  ghost predicate IdentityUpTo(a: Vm, b: Vm, root: Frame, first: nat, upto: nat) {
    forall q :: Walk(b.ts, root, q) == if first <= Num(q) < upto then Identity(q) else Walk(a.ts, root, q)
  }

  lemma OneMorePage(a: Vm, b: Vm, c: Vm, root: Frame, first: nat, upto: nat, addr: U64)
    requires IdentityUpTo(a, b, root, first, upto) && IsRoot(b.place, root) && first <= upto
    requires addr < 0x1_0000_0000_0000 && addr == upto * PAGE_SIZE && OnlyPage(b, c, PageOf(addr))
    requires Walk(c.ts, root, PageOf(addr)) == Mapped(addr / PAGE_SIZE, PRESENT_WRITABLE, false, true, false)
    ensures IdentityUpTo(a, c, root, first, upto + 1)
  {
    NumOfAddress(addr);
    forall q
      ensures Walk(c.ts, root, q) == if first <= Num(q) < upto + 1 then Identity(q) else Walk(a.ts, root, q)
    {
      if Num(q) == upto {
        NumIsInjective(q, PageOf(addr));
      } else {
        assert Walk(c.ts, root, q) == Walk(b.ts, root, q);
      }
    }
  }

  /** The pages numbered in [first, upto) have page tables. */
  ghost predicate TablesUpTo(ts: Tables, root: Frame, first: nat, upto: nat) {
    forall q :: first <= Num(q) < upto ==> HasPt(ts, root, q)
  }

  lemma OneMoreTable(a: Vm, b: Vm, root: Frame, first: nat, upto: nat, addr: U64)
    requires Good(a) && Extends(a, b) && IsRoot(a.place, root) && TablesUpTo(a.ts, root, first, upto)
    requires addr < 0x1_0000_0000_0000 && addr == upto * PAGE_SIZE && HasPt(b.ts, root, PageOf(addr))
    ensures TablesUpTo(b.ts, root, first, upto + 1)
  {
    hide Good, Extends, HasPt, PageOf;
    NumOfAddress(addr);
    forall q | first <= Num(q) < upto + 1
      ensures HasPt(b.ts, root, q)
    {
      if Num(q) == upto {
        NumIsInjective(q, PageOf(addr));
      } else {
        TableStays(a, b, root, q);
      }
    }
  }

  lemma TablesStay(a: Vm, b: Vm, root: Frame, first: nat, upto: nat)
    requires Good(a) && Extends(a, b) && IsRoot(a.place, root) && TablesUpTo(a.ts, root, first, upto)
    ensures TablesUpTo(b.ts, root, first, upto)
  {
    hide Good, Extends, HasPt;
    forall q | first <= Num(q) < upto
      ensures HasPt(b.ts, root, q)
    {
      TableStays(a, b, root, q);
    }
  }

  lemma SameKeepsIdentity(a: Vm, b: Vm, c: Vm, root: Frame, first: nat, upto: nat)
    requires IdentityUpTo(a, b, root, first, upto) && IsRoot(b.place, root) && SameWalks(b, c)
    ensures IdentityUpTo(a, c, root, first, upto)
  {
  }

  /** Maps 4 MiB to 64 MiB page by page; stops silently when tables run out. */
  method ExtendIdentityMap(m: Machine) returns (ghost upto: nat)
    requires m.Valid()
    modifies m`tables, m`place, m.frames.bits, m.frames`used
    ensures m.Valid() && Extends(old(m.State()), m.State())
    ensures IDENTITY_4K_START / PAGE_SIZE <= upto <= IDENTITY_4K_END / PAGE_SIZE
    ensures IdentityUpTo(old(m.State()), m.State(), m.pml4, IDENTITY_4K_START / PAGE_SIZE, upto)
    ensures TablesUpTo(m.tables, m.pml4, IDENTITY_4K_START / PAGE_SIZE, upto)
    ensures upto == IDENTITY_4K_END / PAGE_SIZE || m.NoFreeTable()
  {
    hide Good, Extends, OnlyPage, SameWalks, Walk, HasPt, UpperUserAfter, PageOf, FrameOf, IdentityUpTo, TablesUpTo;
    ghost var s0 := m.State();
    GrowsRefl(s0);
    upto := IDENTITY_4K_START / PAGE_SIZE;
    EmptyIdentity(s0, m.pml4, upto);
    var addr := IDENTITY_4K_START;
    while addr < IDENTITY_4K_END
      invariant IDENTITY_4K_START <= addr <= IDENTITY_4K_END && addr == upto * PAGE_SIZE
      invariant m.Valid() && m.pml4 == old(m.pml4) && Extends(s0, m.State())
      invariant IdentityUpTo(s0, m.State(), m.pml4, IDENTITY_4K_START / PAGE_SIZE, upto)
      invariant TablesUpTo(m.tables, m.pml4, IDENTITY_4K_START / PAGE_SIZE, upto)
    {
      ghost var s1 := m.State();
      SmallFrame(addr);
      var ok := m.MapPage(addr, addr, PRESENT_WRITABLE);
      ExtendsTransitive(s0, s1, m.State());
      if !ok {
        SameKeepsIdentity(s0, s1, m.State(), m.pml4, IDENTITY_4K_START / PAGE_SIZE, upto);
        TablesStay(s1, m.State(), m.pml4, IDENTITY_4K_START / PAGE_SIZE, upto);
        return;
      }
      OneMoreTable(s1, m.State(), m.pml4, IDENTITY_4K_START / PAGE_SIZE, upto, addr);
      OneMorePage(s0, s1, m.State(), m.pml4, IDENTITY_4K_START / PAGE_SIZE, upto, addr);
      upto := upto + 1;
      addr := addr + PAGE_SIZE;
    }
  }

  lemma EmptyIdentity(a: Vm, root: Frame, n: nat)
    ensures IdentityUpTo(a, a, root, n, n) && TablesUpTo(a.ts, root, n, n)
  {
  }

  lemma SmallFrame(addr: U64)
    requires addr < 0x10_0000_0000_0000
    ensures FrameOf(addr) == addr / PAGE_SIZE
  {
  }

  lemma BootIsIdentity(p: Page)
    ensures BootMapping(p) == if Num(p) < IDENTITY_4K_START / PAGE_SIZE then Identity(p) else Unmapped
  {
    assert p.i4 > 0 ==> Num(p) >= 512 * 512 * 512;
  }

  /**
    The state `paging_init` leaves, for any memory map. The boot tables lie in the
    kernel image. Frames below MAX_PHYS_MEM are free exactly when they are
    available, not reserved and not one of the new tables. If tables do not run
    out, exactly the first 64 MiB are mapped, each page to itself: the mapping ends
    far below IDENTITY_MAP_LIMIT, up to which tables are still taken.
   */
  method PagingInit(regions: seq<Region>, kernelEnd: U64, stackBottom: U64, stackTop: U64, modules: seq<Range>,
                    pml4: Frame, pdpt: Frame, pd: Frame) returns (m: Machine, ghost upto: nat)
    requires 0 !in {pml4, pdpt, pd} && pml4 != pdpt && pml4 != pd && pdpt != pd
    requires InImage(pml4, kernelEnd) && InImage(pdpt, kernelEnd) && InImage(pd, kernelEnd)
    ensures m.Valid() && m.pml4 == pml4
    ensures forall f: nat :: f < MAX_FRAMES ==>
      (f !in m.frames.used <==>
        (Available(regions, f) || NothingAvailable(regions))
        && !Reserved(ReservedRanges(kernelEnd, stackBottom, stackTop, modules), f)
        && f !in m.tables)
    ensures upto <= 0x4000 && (upto == 0x4000 || m.NoFreeTable())
    ensures OnlyIdentity(m.tables, pml4, upto) && TablesUpTo(m.tables, pml4, 0x400, upto)
  {
    hide Good, Extends, Walk, BootMapping, InRegion, HasPt;
    var b := new FrameBitmap(regions, kernelEnd, stackBottom, stackTop, modules);
    ghost var ranges := ReservedRanges(kernelEnd, stackBottom, stackTop, modules);
    ImageIsReserved(kernelEnd, stackBottom, stackTop, modules);
    m := new Machine(b, pml4, pdpt, pd);
    ghost var s0 := m.State();
    BootIsGood(pml4, pdpt, pd, b.used);
    upto := ExtendIdentityMap(m);
    ExtensionAccounts(s0, m.State());
    forall q
      ensures Walk(m.tables, pml4, q) == if Num(q) < upto then Identity(q) else Unmapped
    {
      BootIsIdentity(q);
    }
  }

  /** The frame begins inside the kernel image. */
  predicate InImage(f: Frame, kernelEnd: U64) { f < MAX_FRAMES && f * PAGE_SIZE < kernelEnd }

  lemma ImageIsReserved(kernelEnd: U64, stackBottom: U64, stackTop: U64, modules: seq<Range>)
    ensures forall f :: InImage(f, kernelEnd) ==> Reserved(ReservedRanges(kernelEnd, stackBottom, stackTop, modules), f)
  {
    forall f | InImage(f, kernelEnd)
      ensures Reserved(ReservedRanges(kernelEnd, stackBottom, stackTop, modules), f)
    {
      assert InRange(ReservedRanges(kernelEnd, stackBottom, stackTop, modules)[0], f);
    }
  }

  /** After growth, a frame is free exactly if it was free and did not become a table. */
  lemma ExtensionAccounts(a: Vm, b: Vm)
    requires Good(a) && Good(b) && Extends(a, b)
    ensures forall f :: f !in b.used <==> f !in a.used && f !in b.ts
  {
  }

  // ----- Reading physical memory after boot -----

  /** What `PagingInit` leaves: the pages below `upto` mapped to themselves, and no others. */
  ghost predicate OnlyIdentity(ts: Tables, root: Frame, upto: nat) {
    forall q :: Walk(ts, root, q) == if Num(q) < upto then Identity(q) else Unmapped
  }

  lemma IdentityAddress(ts: Tables, root: Frame, upto: nat, a: nat)
    requires OnlyIdentity(ts, root, upto) && a < IDENTITY_MAP_LIMIT
    ensures MappedToItself(ts, root, a) <==> a < upto * PAGE_SIZE
  {
    hide Walk, PageOf;
    NumOfAddress(a);
    PageBelow(a, upto);
  }

  lemma PageBelow(a: nat, n: nat)
    ensures a / PAGE_SIZE < n <==> a < n * PAGE_SIZE
  {
  }

  /** Until further pages are mapped, reading a range below the limit goes astray if and only if the range passes the end of the identity map. */
  lemma BootStraysIff(ts: Tables, root: Frame, upto: nat, src: nat, len: nat)
    requires OnlyIdentity(ts, root, upto) && upto <= 0x4000
    ensures Strays(ts, root, src, len) <==> len > 0 && src < IDENTITY_MAP_LIMIT && src + len > upto * PAGE_SIZE
  {
    hide OnlyIdentity, MappedToItself;
    forall a: nat | a < IDENTITY_MAP_LIMIT
      ensures MappedToItself(ts, root, a) <==> a < upto * PAGE_SIZE
    {
      IdentityAddress(ts, root, upto, a);
    }
    if len > 0 && src < IDENTITY_MAP_LIMIT && src + len > upto * PAGE_SIZE {
      StraysHere(ts, root, src, len, if src < upto * PAGE_SIZE then upto * PAGE_SIZE else src);
    }
  }

  /** A boot module at 80 MiB cannot be read at its own address. */
  lemma ModuleAt80MiB(ts: Tables, root: Frame, upto: nat, len: nat)
    requires OnlyIdentity(ts, root, upto) && upto <= 0x4000 && len > 0
    ensures Strays(ts, root, 0x500_0000, len)
  {
    hide OnlyIdentity, Strays;
    BootStraysIff(ts, root, upto, 0x500_0000, len);
  }
}
