/**
  Loading an ELF image to its fixed addresses: page by page the frames are
  cleared, filled from the file through the kernel window, and given to user mode.
 */
module Elf {
  import opened Frames
  import opened PageTables
  import opened Paging
  import opened ElfSpec
  import Boot
  import CloneDirect
  import Paths
  import Vfs
  import VfsLinks
  import VfsSpec

  const FIRST_FRAME: nat := USER_IMAGE_PHYS_START / PAGE_SIZE
  const LAST_FRAME: nat := USER_IMAGE_PHYS_END / PAGE_SIZE

  /** The frames for fixed images are used and are no tables. */
  ghost predicate ImageOwned(v: Vm) { forall f: nat :: FIRST_FRAME <= f < LAST_FRAME ==> f in v.used && f !in v.ts }

  /** All tables stay where they are. */
  ghost predicate PlacesKept(a: Vm, b: Vm) { forall f :: f in a.place ==> f in b.place && b.place[f] == a.place[f] }

  /** The kernel window has its page table: nothing that is mapped through it fails. */
  predicate Ready(ts: Tables, root: Frame) { HasPt(ts, root, PageOf(WINDOW)) }

  /** The page of `a` is open to user mode at its own address, writable. */
  predicate UserPage(ts: Tables, root: Frame, a: U64) { Walk(ts, root, PageOf(a)) == UserIdentity(a, PRESENT) }

  /** Outside the window and the pages of [lo, hi), pages translate as before; at most a user leaf became reachable. */
  ghost predicate OnlyOpens(a: Vm, b: Vm, root: Frame, lo: nat, hi: nat) {
    forall q :: IsWindow(q) || lo <= Num(q) * PAGE_SIZE < hi || Opened(Walk(a.ts, root, q), Walk(b.ts, root, q))
  }

  /** [lo, hi) holds what the segment leaves there. */
  ghost predicate Filled(d: map<Frame, Bytes>, ph: Phdr, file: seq<byte>, stale: nat -> byte, lo: nat, hi: nat)
  {
    forall a: nat :: lo <= a < hi ==> PhysByte(d, a) == SegByte(ph, file, stale, a)
  }

  ghost predicate UserPages(ts: Tables, root: Frame, lo: nat, hi: nat) {
    forall a: U64 :: lo <= a < hi ==> UserPage(ts, root, a)
  }

  // ----- Steps -----

  lemma WindowKeeps(a: Vm, b: Vm, root: Frame)
    requires Good(a) && Good(b) && Extends(a, b) && OnlyWindow(a, b) && ImageOwned(a) && IsRoot(a.place, root)
    ensures ImageOwned(b) && PlacesKept(a, b) && OnlyOpens(a, b, root, 0, 0) && IsRoot(b.place, root)
  {
    NewTablesWereFree(a, b);
    forall q
      ensures IsWindow(q) || Opened(Walk(a.ts, root, q), Walk(b.ts, root, q))
    {
    }
  }

  lemma OpensChain(a: Vm, b: Vm, c: Vm, root: Frame, lo: nat, mid: nat, hi: nat)
    requires OnlyOpens(a, b, root, lo, mid) && OnlyOpens(b, c, root, mid, hi) && lo <= mid <= hi
    ensures OnlyOpens(a, c, root, lo, hi)
  {
    forall q
      ensures IsWindow(q) || lo <= Num(q) * PAGE_SIZE < hi || Opened(Walk(a.ts, root, q), Walk(c.ts, root, q))
    {
      assert IsWindow(q) || lo <= Num(q) * PAGE_SIZE < mid || Opened(Walk(a.ts, root, q), Walk(b.ts, root, q));
      assert IsWindow(q) || mid <= Num(q) * PAGE_SIZE < hi || Opened(Walk(b.ts, root, q), Walk(c.ts, root, q));
    }
  }

  lemma PlacesChain(a: Vm, b: Vm, c: Vm)
    requires PlacesKept(a, b) && PlacesKept(b, c)
    ensures PlacesKept(a, c)
  {
  }

  /** Pages given to user mode before stay so. */
  lemma UserPagesKept(a: Vm, b: Vm, root: Frame, lo: nat, hi: nat, from: nat, to: nat)
    requires UserPages(a.ts, root, lo, hi) && OnlyOpens(a, b, root, from, to) && UserPages(b.ts, root, from, to)
    requires USER_IMAGE_PHYS_START <= lo && hi <= USER_IMAGE_PHYS_END && from % PAGE_SIZE == 0 && to % PAGE_SIZE == 0
    ensures UserPages(b.ts, root, lo, hi)
  {
    hide UserPage, OnlyOpens;
    forall x: U64 | lo <= x < hi
      ensures UserPage(b.ts, root, x)
    {
      assert UserPage(a.ts, root, x);
      SamePage(AlignDown(x), x);
      if from <= AlignDown(x) < to {
        PageFits(AlignDown(x), to);
        assert UserPage(b.ts, root, x);
      } else {
        OpenedPage(a, b, root, x, from, to);
      }
    }
  }

  /** An image page is not in the window; unless it lies in the range, it is at most opened. */
  lemma OpenedPage(a: Vm, b: Vm, root: Frame, at: U64, from: nat, to: nat)
    requires OnlyOpens(a, b, root, from, to) && UserPage(a.ts, root, at)
    requires USER_IMAGE_PHYS_START <= at < USER_IMAGE_PHYS_END && !(from <= AlignDown(at) < to)
    ensures UserPage(b.ts, root, at)
  {
    hide Walk;
    Boot.NumOfAddress(at);
    assert !IsWindow(PageOf(at));
    var q := PageOf(at);
    assert IsWindow(q) || from <= Num(q) * PAGE_SIZE < to || Opened(Walk(a.ts, root, q), Walk(b.ts, root, q));
  }

  lemma OnePageOpens(a: Vm, b: Vm, root: Frame, at: U64)
    requires at % PAGE_SIZE == 0 && at < 0x1_0000_0000_0000 && IsRoot(a.place, root)
    requires forall r, q :: IsRoot(a.place, r) && q != PageOf(at) ==> Opened(Walk(a.ts, r, q), Walk(b.ts, r, q))
    ensures OnlyOpens(a, b, root, at, at + PAGE_SIZE)
  {
    hide Walk, PageOf, Opened;
    Boot.NumOfAddress(at);
    forall q
      ensures IsWindow(q) || at <= Num(q) * PAGE_SIZE < at + PAGE_SIZE || Opened(Walk(a.ts, root, q), Walk(b.ts, root, q))
    {
      if q == PageOf(at) {
        assert Num(q) * PAGE_SIZE == at;
      }
    }
  }

  lemma NewUserPage(ts: Tables, root: Frame, at: U64, flags: Flags)
    requires at % PAGE_SIZE == 0 && at + PAGE_SIZE < TWO64 && flags == PRESENT.(writable := flags.writable)
    requires Walk(ts, root, PageOf(at)) == UserIdentity(at, flags)
    ensures UserPages(ts, root, at, at + PAGE_SIZE)
  {
    hide Walk, PageOf;
    forall a: U64 | at <= a < at + PAGE_SIZE
      ensures UserPage(ts, root, a)
    {
      SamePage(at, a);
    }
  }

  lemma OwnedRange(v: Vm, phys: nat, len: nat)
    requires ImageOwned(v) && USER_IMAGE_PHYS_START <= phys && phys + len <= USER_IMAGE_PHYS_END
    ensures OwnRange(v, phys, len)
  {
    forall a: nat | phys <= a < phys + len
      ensures a / PAGE_SIZE in v.used && a / PAGE_SIZE !in v.ts
    {
      assert FIRST_FRAME <= a / PAGE_SIZE < LAST_FRAME;
    }
  }

  /** The end of the file part of the page at `addr`. */
  function CopyEnd(ph: Phdr, addr: nat): nat { if addr + PAGE_SIZE < FileEnd(ph) then addr + PAGE_SIZE else FileEnd(ph) }

  /** What is copied to the page at `addr`: bytes of the file, and stale bytes of the buffer where it is too short. */
  function Copied(ph: Phdr, file: seq<byte>, stale: nat -> byte, addr: nat): (s: seq<byte>)
    requires addr % PAGE_SIZE == 0
  {
    var start, end := CopyStart(ph, addr), CopyEnd(ph, addr);
    if start >= end then []
    else
      var got := Vfs.Part(file, (ph.offset + (start - ph.vaddr)) % TWO64, end - start);
      got + seq(end - start - |got|, (k: nat) => stale(start + |got| + k))
  }

  lemma CopiedBytes(ph: Phdr, file: seq<byte>, stale: nat -> byte, addr: nat, a: nat)
    requires addr % PAGE_SIZE == 0 && addr <= a < addr + PAGE_SIZE
    ensures var start, s := CopyStart(ph, addr), Copied(ph, file, stale, addr);
      SegByte(ph, file, stale, a) == if start <= a < start + |s| then s[a - start] else 0
  {
    hide FileEnd;
    assert AlignDown(a) == addr && AlignDown(addr) == addr;
  }

  lemma CopiedFits(ph: Phdr, file: seq<byte>, stale: nat -> byte, addr: nat)
    requires addr % PAGE_SIZE == 0
    ensures var start, s := CopyStart(ph, addr), Copied(ph, file, stale, addr);
      s != [] ==> addr <= start && start + |s| <= addr + PAGE_SIZE
  {
    hide FileEnd;
  }

  /** The bytes of one page after it was cleared and the file part, if any, was copied. */
  lemma PageFilled(d1: map<Frame, Bytes>, d2: map<Frame, Bytes>, ph: Phdr, file: seq<byte>, stale: nat -> byte, addr: nat)
    requires addr % PAGE_SIZE == 0
    requires BytesAre(d1, addr, Zeros(PAGE_SIZE))
    requires var start, s := CopyStart(ph, addr), Copied(ph, file, stale, addr);
      SameBytes(d1, d2, start, start + |s|) && BytesAre(d2, start, s)
    ensures Filled(d2, ph, file, stale, addr, addr + PAGE_SIZE)
  {
    hide PhysByte, FileEnd, Copied, SegByte, CopyStart;
    forall a: nat | addr <= a < addr + PAGE_SIZE
      ensures PhysByte(d2, a) == SegByte(ph, file, stale, a)
    {
      CopiedBytes(ph, file, stale, addr, a);
    }
  }

  // ----- The loader -----

  /** Splits the huge pages of the boot directory under [start, end); stops silently when tables run out. */
  method SplitHugeRange(m: Machine, pd0: Frame, start: U64, end: U64)
    requires m.Valid() && pd0 in m.tables && m.place[pd0] == Pd(0, 0) && end <= 0x4000_0000
    modifies m`tables, m`place, m.frames.bits, m.frames`used
    ensures m.Valid() && Extends(old(m.State()), m.State()) && SameWalks(old(m.State()), m.State())
    ensures old(m.NoFreeTable()) ==> m.State() == old(m.State())
    ensures m.NoFreeTable() ||
      forall i: Idx :: start / 0x20_0000 <= i <= (end - 1) / 0x20_0000 && start < end ==> !IsHuge(Pd(0, 0), At(m.tables, pd0, i))
  {
    hide Good, Extends, SameWalks, Walk, PageOf;
    ghost var s0 := m.State();
    GrowsRefl(s0);
    if end <= start {
      return;
    }
    Basics(s0);
    var i, last := start / 0x20_0000, (end - 1) / 0x20_0000;
    while i <= last
      invariant start / 0x20_0000 <= i && last < 512
      invariant m.Valid() && Extends(s0, m.State()) && SameWalks(s0, m.State())
      invariant pd0 in m.tables && pd0 in m.place && m.place[pd0] == Pd(0, 0)
      invariant forall j: Idx :: start / 0x20_0000 <= j < i ==> !IsHuge(Pd(0, 0), At(m.tables, pd0, j))
      invariant old(m.NoFreeTable()) ==> m.State() == s0
    {
      ghost var s1 := m.State();
      Basics(s1);
      var ok := m.SplitHugePage(pd0, i);
      Chain(s0, s1, m.State());
      PlaceKept(s1, m.State(), pd0);
      Basics(m.State());
      if !ok {
        return;
      }
      NoNewHuge(s1, m.State(), pd0, i, start / 0x20_0000);
      i := i + 1;
    }
  }

  lemma NoNewHuge(a: Vm, b: Vm, pd: Frame, i: Idx, from: nat)
    requires pd in a.ts && pd in b.ts && !IsHuge(Pd(0, 0), At(b.ts, pd, i))
    requires forall j: Idx :: from <= j < i ==> !IsHuge(Pd(0, 0), At(a.ts, pd, j))
    requires forall j: Idx :: j != i ==> At(b.ts, pd, j) == At(a.ts, pd, j)
    ensures forall j: Idx :: from <= j < i + 1 ==> !IsHuge(Pd(0, 0), At(b.ts, pd, j))
  {
  }

  /** The file that `path` names when links are followed. */
  ghost function TheFile(t: VfsSpec.Tree, path: Paths.Str, fuel: nat): Paths.Option<seq<byte>>
    requires VfsLinks.LookupFollow(t, path, fuel).Some?
  {
    Vfs.FileAt(t, VfsLinks.LookupFollow(t, path, fuel).value)
  }

  /** The buffer that is written to the page at `addr`; no result when the path names no file. */
  method ReadPage(fs: Vfs.FileSystem, path: Paths.Str, ghost fuel: nat, ph: Phdr, stale: nat -> byte, addr: U64)
    returns (kbuf: Paths.Option<seq<byte>>)
    requires fs.Valid() && Paths.NoNul(path) && VfsLinks.LookupFollow(fs.inodes, path, fuel).Some? && addr % PAGE_SIZE == 0
    ensures var file := TheFile(fs.inodes, path, fuel);
      kbuf == if CopyStart(ph, addr) >= CopyEnd(ph, addr) then Paths.Some([])
              else if file.None? then Paths.None else Paths.Some(Copied(ph, file.value, stale, addr))
  {
    hide VfsLinks.LookupFollow, VfsSpec.TreeOk, FileEnd, TheFile, Vfs.ReadBytes;
    var copyStart := if addr < ph.vaddr then ph.vaddr else addr;
    var fileEnd := FileEnd(ph);
    var copyEnd := if addr + PAGE_SIZE < fileEnd then addr + PAGE_SIZE else fileEnd;
    assert AlignDown(addr) == addr;
    if copyStart >= copyEnd {
      return Paths.Some([]);
    }
    var len, src := copyEnd - copyStart, (ph.offset + (copyStart - ph.vaddr)) % TWO64;
    ReadIsPart(fs.inodes, path, fuel, src, len);
    var got := fs.ReadAt(path, src, len, fuel);
    if got.None? {
      return Paths.None;
    }
    return Paths.Some(got.value + seq(len - |got.value|, (k: nat) => stale(copyStart + |got.value| + k)));
  }

  lemma ReadIsPart(t: VfsSpec.Tree, path: Paths.Str, fuel: nat, src: nat, len: nat)
    requires VfsLinks.LookupFollow(t, path, fuel).Some?
    ensures Vfs.ReadBytes(t, VfsLinks.LookupFollow(t, path, fuel).value, src, len) ==
      if TheFile(t, path, fuel).None? then Paths.None else Paths.Some(Vfs.Part(TheFile(t, path, fuel).value, src, len))
  {
    Vfs.ReadIsPart(t, VfsLinks.LookupFollow(t, path, fuel).value, src, len);
  }

  /**
    What a step of loading keeps: the trees, the frames of images, the window's table,
    all but the pages of [lo, hi), and what a clone needs of the space.
   */
  ghost predicate Keeps(a: Vm, b: Vm, d: map<Frame, Bytes>, e: map<Frame, Bytes>, root: Frame, lo: nat, hi: nat) {
    && ImageOwned(b) && PlacesKept(a, b) && (Ready(a.ts, root) ==> Ready(b.ts, root))
    && OnlyOpens(a, b, root, lo, hi) && SameBytes(d, e, lo, hi) && CloneDirect.ReadyKept(a, b, root)
    && TablesKept(a.ts, b.ts, root)
  }

  /** Every page that had a page table has one. */
  ghost predicate TablesKept(ts: Tables, ts': Tables, root: Frame) { forall p :: HasPt(ts, root, p) ==> HasPt(ts', root, p) }

  /** Every page of the window for fixed images has a page table. */
  ghost predicate ImageTables(ts: Tables, root: Frame) {
    forall a: U64 :: USER_IMAGE_PHYS_START <= a < USER_IMAGE_PHYS_END ==> HasPt(ts, root, PageOf(a))
  }

  /** The identity map of the first 8 MiB brings all page tables the window for images needs. */
  lemma BootHasImageTables(ts: Tables, root: Frame, upto: nat)
    requires Boot.TablesUpTo(ts, root, 0x400, upto) && upto >= 0x800
    ensures ImageTables(ts, root)
  {
    hide HasPt, PageOf;
    forall a: U64 | USER_IMAGE_PHYS_START <= a < USER_IMAGE_PHYS_END
      ensures HasPt(ts, root, PageOf(a))
    {
      Boot.NumOfAddress(a);
    }
  }

  lemma ImageTablesKept(ts: Tables, ts': Tables, root: Frame)
    requires ImageTables(ts, root) && TablesKept(ts, ts', root)
    ensures ImageTables(ts', root)
  {
    hide HasPt, PageOf;
  }

  lemma GrowthKeepsTables(a: Vm, b: Vm, root: Frame)
    requires Good(a) && Extends(a, b) && IsRoot(a.place, root)
    ensures TablesKept(a.ts, b.ts, root)
  {
    hide Good, Extends, HasPt;
    forall p
      ensures HasPt(a.ts, root, p) ==> HasPt(b.ts, root, p)
    {
      TableStays(a, b, root, p);
    }
  }

  lemma KeepsChain(a: Vm, b: Vm, c: Vm, d: map<Frame, Bytes>, e: map<Frame, Bytes>, f: map<Frame, Bytes>, root: Frame, lo: nat, mid: nat, hi: nat)
    requires lo <= mid <= hi && Keeps(a, b, d, e, root, lo, mid) && Keeps(b, c, e, f, root, mid, hi)
    ensures Keeps(a, c, d, f, root, lo, hi)
  {
    hide ImageOwned, Ready, OnlyOpens, PhysByte, PlacesKept, CloneDirect.ReadyKept;
    PlacesChain(a, b, c);
    OpensChain(a, b, c, root, lo, mid, hi);
    CloneDirect.ReadyChain(a, b, c, root);
  }

  lemma KeepsNothing(a: Vm, d: map<Frame, Bytes>, root: Frame, at: nat)
    requires ImageOwned(a)
    ensures Keeps(a, a, d, d, root, at, at)
  {
    hide CloneDirect.ReadyKept;
    CloneDirect.ReadySame(a, root);
  }

  /** A store through the window. */
  lemma WindowStep(a: Vm, b: Vm, d: map<Frame, Bytes>, e: map<Frame, Bytes>, root: Frame, addr: nat, lo: nat, hi: nat)
    requires Good(a) && Good(b) && Extends(a, b) && OnlyWindow(a, b) && ImageOwned(a) && IsRoot(a.place, root)
    requires (Ready(a.ts, root) ==> Ready(b.ts, root)) && SameBytes(d, e, lo, hi) && (lo < hi ==> addr <= lo && hi <= addr + PAGE_SIZE)
    requires SourceKept(a, b, root)
    ensures Keeps(a, b, d, e, root, addr, addr + PAGE_SIZE) && IsRoot(b.place, root)
  {
    hide Good, ImageOwned, OnlyOpens, PlacesKept, Extends, Ready, PhysByte, SourceKept, CloneDirect.ReadyKept, TablesKept;
    CloneDirect.ReadyByWindow(a, b, root);
    GrowthKeepsTables(a, b, root);
    WindowKeeps(a, b, root);
    OpensWiden(a, b, root, addr, addr + PAGE_SIZE);
  }

  lemma OpensWiden(a: Vm, b: Vm, root: Frame, lo: nat, hi: nat)
    requires OnlyOpens(a, b, root, 0, 0)
    ensures OnlyOpens(a, b, root, lo, hi)
  {
    forall q
      ensures IsWindow(q) || lo <= Num(q) * PAGE_SIZE < hi || Opened(Walk(a.ts, root, q), Walk(b.ts, root, q))
    {
      assert IsWindow(q) || 0 <= Num(q) * PAGE_SIZE < 0 || Opened(Walk(a.ts, root, q), Walk(b.ts, root, q));
    }
  }

  lemma KeepsWithin(a: Vm, b: Vm, c: Vm, d: map<Frame, Bytes>, e: map<Frame, Bytes>, f: map<Frame, Bytes>, root: Frame, lo: nat, hi: nat)
    requires Keeps(a, b, d, e, root, lo, hi) && Keeps(b, c, e, f, root, lo, hi)
    ensures Keeps(a, c, d, f, root, lo, hi)
  {
    hide ImageOwned, Ready, PhysByte, PlacesKept, CloneDirect.ReadyKept;
    PlacesChain(a, b, c);
    CloneDirect.ReadyChain(a, b, c, root);
    forall q
      ensures IsWindow(q) || lo <= Num(q) * PAGE_SIZE < hi || Opened(Walk(a.ts, root, q), Walk(c.ts, root, q))
    {
      assert IsWindow(q) || lo <= Num(q) * PAGE_SIZE < hi || Opened(Walk(a.ts, root, q), Walk(b.ts, root, q));
      assert IsWindow(q) || lo <= Num(q) * PAGE_SIZE < hi || Opened(Walk(b.ts, root, q), Walk(c.ts, root, q));
    }
  }

  /** Clears the frame at `addr`, ignoring a failure as the loader does, and writes the file part to it. */
  method FillPage(m: Machine, ph: Phdr, ghost file: seq<byte>, ghost stale: nat -> byte, addr: U64, kbuf: seq<byte>) returns (ok: bool)
    requires m.Valid() && ImageOwned(m.State()) && addr % PAGE_SIZE == 0
    requires USER_IMAGE_PHYS_START <= addr < USER_IMAGE_PHYS_END
    requires kbuf == Copied(ph, file, stale, addr)
    modifies m`tables, m`place, m`data, m.frames.bits, m.frames`used
    ensures m.Valid() && Keeps(old(m.State()), m.State(), old(m.data), m.data, m.pml4, addr, addr + PAGE_SIZE)
    ensures Ready(m.tables, m.pml4) ==> ok && Filled(m.data, ph, file, stale, addr, addr + PAGE_SIZE)
    ensures !Ready(m.tables, m.pml4) ==> m.Starved(PageOf(WINDOW)) && m.data == old(m.data) && (ok <==> kbuf == [])
    ensures old(m.Starved(PageOf(WINDOW))) ==> m.State() == old(m.State())
  {
    hide Good, Extends, OnlyWindow, SourceKept, ImageOwned, Keeps, PhysByte, Copied, FileEnd, Filled, CopyStart, HasPt, PageOf, Walk, OwnRange, AlignDown;
    ghost var s0, d0 := m.State(), m.data;
    OwnedRange(s0, addr, PAGE_SIZE);
    var cleared := m.ClearPhys(addr, PAGE_SIZE);
    ghost var s1, d1 := m.State(), m.data;
    WindowStep(s0, s1, d0, d1, m.pml4, addr, addr, addr + PAGE_SIZE);
    KeepsOwned(s0, s1, d0, d1, m.pml4, addr);
    CopiedFits(ph, file, stale, addr);
    if |kbuf| == 0 {
      if cleared {
        PageFilled(d1, d1, ph, file, stale, addr);
      }
      return true;
    }
    var copyStart := if addr < ph.vaddr then ph.vaddr else addr;
    assert copyStart == CopyStart(ph, addr) by { StartOfPage(ph, addr); }
    OwnedRange(s1, copyStart, |kbuf|);
    ok := m.WritePhys(copyStart, kbuf);
    WindowStep(s1, m.State(), d1, m.data, m.pml4, addr, copyStart, copyStart + |kbuf|);
    KeepsWithin(s0, s1, m.State(), d0, d1, m.data, m.pml4, addr, addr + PAGE_SIZE);
    if cleared && ok {
      PageFilled(d1, m.data, ph, file, stale, addr);
    }
  }

  lemma StartOfPage(ph: Phdr, addr: nat)
    requires addr % PAGE_SIZE == 0
    ensures CopyStart(ph, addr) == if addr < ph.vaddr then ph.vaddr else addr
  {
    assert AlignDown(addr) == addr;
  }

  lemma KeepsOwned(a: Vm, b: Vm, d: map<Frame, Bytes>, e: map<Frame, Bytes>, root: Frame, addr: nat)
    requires Keeps(a, b, d, e, root, addr, addr + PAGE_SIZE)
    ensures ImageOwned(b) && SameBytes(d, e, addr, addr + PAGE_SIZE) && (Ready(a.ts, root) ==> Ready(b.ts, root))
  {
  }

  lemma SplitStep(a: Vm, b: Vm, d: map<Frame, Bytes>, root: Frame, at: nat)
    requires Good(a) && Good(b) && Extends(a, b) && SameWalks(a, b) && ImageOwned(a) && IsRoot(a.place, root)
    ensures Keeps(a, b, d, d, root, at, at)
  {
    hide Good, Walk, PhysByte, PageOf, CloneDirect.ReadyKept, TablesKept;
    GrowthKeepsTables(a, b, root);
    NewTablesWereFree(a, b);
    SourceKeptSame(a, b, root);
    CloneDirect.ReadyByWindow(a, b, root);
    TableStays(a, b, root, PageOf(WINDOW));
    forall q
      ensures IsWindow(q) || at <= Num(q) * PAGE_SIZE < at || Opened(Walk(a.ts, root, q), Walk(b.ts, root, q))
    {
    }
  }

  lemma PromoteStep(a: Vm, b: Vm, d: map<Frame, Bytes>, root: Frame, addr: U64, ok: bool, flags: Flags)
    requires Good(a) && Good(b) && a.place == b.place && a.used == b.used && ImageOwned(a) && IsRoot(a.place, root)
    requires addr % PAGE_SIZE == 0 && addr < 0x1_0000_0000_0000 && (Ready(a.ts, root) ==> Ready(b.ts, root))
    requires forall r, q :: IsRoot(a.place, r) && q != PageOf(addr) ==> Opened(Walk(a.ts, r, q), Walk(b.ts, r, q))
    requires USER_IMAGE_PHYS_START <= addr < USER_IMAGE_PHYS_END && flags == PRESENT.(writable := flags.writable)
    requires if ok then Walk(b.ts, root, PageOf(addr)) == UserIdentity(addr, flags) else a == b
    requires TablesKept(a.ts, b.ts, root)
    ensures Keeps(a, b, d, d, root, addr, addr + PAGE_SIZE)
  {
    hide Good, Walk, PhysByte, PageOf, Opened, Ready, CloneDirect.ReadyKept, TablesKept;
    if ok {
      assert FIRST_FRAME <= addr / PAGE_SIZE < LAST_FRAME;
      Basics(a);
      Basics(b);
      CloneDirect.ReadyByPromote(a, b, root, addr);
    } else {
      CloneDirect.ReadySame(a, root);
    }
    Basics(a);
    Basics(b);
    OnePageOpens(a, b, root, addr);
  }

  lemma UserPagesOn(ts: Tables, root: Frame, lo: nat, mid: nat, hi: nat)
    requires UserPages(ts, root, lo, mid) && UserPages(ts, root, mid, hi)
    ensures UserPages(ts, root, lo, hi)
  {
    hide UserPage;
  }

  lemma KeepsWiden(a: Vm, b: Vm, d: map<Frame, Bytes>, e: map<Frame, Bytes>, root: Frame, lo: nat, hi: nat, lo': nat, hi': nat)
    requires Keeps(a, b, d, e, root, lo, hi) && (lo < hi ==> lo' <= lo && hi <= hi')
    ensures Keeps(a, b, d, e, root, lo', hi')
  {
    hide CloneDirect.ReadyKept, ImageOwned, Ready, PhysByte, PlacesKept;
    forall q
      ensures IsWindow(q) || lo' <= Num(q) * PAGE_SIZE < hi' || Opened(Walk(a.ts, root, q), Walk(b.ts, root, q))
    {
      assert IsWindow(q) || lo <= Num(q) * PAGE_SIZE < hi || Opened(Walk(a.ts, root, q), Walk(b.ts, root, q));
    }
  }

  lemma KeepsFacts(a: Vm, b: Vm, d: map<Frame, Bytes>, e: map<Frame, Bytes>, root: Frame, lo: nat, hi: nat)
    requires Keeps(a, b, d, e, root, lo, hi)
    ensures ImageOwned(b) && PlacesKept(a, b) && OnlyOpens(a, b, root, lo, hi) && SameBytes(d, e, lo, hi)
    ensures (Ready(a.ts, root) ==> Ready(b.ts, root)) && TablesKept(a.ts, b.ts, root)
  {
  }

  ghost predicate NoFilePart(ph: Phdr, lo: nat, hi: nat) { forall a: nat :: lo <= a < hi ==> !InFilePart(ph, a) }

  /**
    What pages hold after they were loaded: the segment, where the window has its page
    table. Otherwise nothing was cleared and nothing written, and nothing was in the
    file for them, or the load would have failed.
   */
  ghost predicate Contents(b: Vm, d: map<Frame, Bytes>, e: map<Frame, Bytes>, root: Frame,
                           ph: Phdr, file: seq<byte>, stale: nat -> byte, lo: nat, hi: nat) {
    if Ready(b.ts, root) then Filled(e, ph, file, stale, lo, hi) else SameBytes(d, e, 0, 0) && NoFilePart(ph, lo, hi)
  }

  /** Like `Keeps`, and [lo, hi) has its contents and belongs to user mode. */
  ghost predicate Loaded(a: Vm, b: Vm, d: map<Frame, Bytes>, e: map<Frame, Bytes>, root: Frame,
                         ph: Phdr, file: seq<byte>, stale: nat -> byte, lo: nat, hi: nat) {
    && Keeps(a, b, d, e, root, lo, hi)
    && (lo < hi ==> Contents(b, d, e, root, ph, file, stale, lo, hi))
    && UserPages(b.ts, root, lo, hi)
  }

  lemma LoadedOn(a: Vm, b: Vm, c: Vm, d: map<Frame, Bytes>, e: map<Frame, Bytes>, f: map<Frame, Bytes>, root: Frame,
                 ph: Phdr, file: seq<byte>, stale: nat -> byte, lo: nat, mid: nat, hi: nat)
    requires Loaded(a, b, d, e, root, ph, file, stale, lo, mid) && Loaded(b, c, e, f, root, ph, file, stale, mid, hi)
    requires USER_IMAGE_PHYS_START <= lo <= mid <= hi && mid <= USER_IMAGE_PHYS_END && mid % PAGE_SIZE == 0 && hi % PAGE_SIZE == 0
    requires lo < mid && Ready(c.ts, root) ==> Ready(b.ts, root)
    ensures Loaded(a, c, d, f, root, ph, file, stale, lo, hi)
  {
    hide Keeps, Ready, Contents, UserPages, OnlyOpens, SameBytes, ImageOwned, PlacesKept;
    KeepsFacts(a, b, d, e, root, lo, mid);
    KeepsFacts(b, c, e, f, root, mid, hi);
    KeepsChain(a, b, c, d, e, f, root, lo, mid, hi);
    UserPagesKept(b, c, root, lo, mid, mid, hi);
    UserPagesOn(c.ts, root, lo, mid, hi);
    if lo < mid {
      ContentsOn(b, c, d, e, f, root, ph, file, stale, lo, mid, hi);
    } else if mid < hi {
      SameContents(c, d, e, f, root, ph, file, stale, lo, hi);
    }
  }

  lemma ContentsOn(b: Vm, c: Vm, d: map<Frame, Bytes>, e: map<Frame, Bytes>, f: map<Frame, Bytes>, root: Frame,
                   ph: Phdr, file: seq<byte>, stale: nat -> byte, lo: nat, mid: nat, hi: nat)
    requires lo < mid <= hi && (Ready(c.ts, root) <==> Ready(b.ts, root)) && SameBytes(e, f, mid, hi)
    requires Contents(b, d, e, root, ph, file, stale, lo, mid) && (mid < hi ==> Contents(c, e, f, root, ph, file, stale, mid, hi))
    ensures Contents(c, d, f, root, ph, file, stale, lo, hi)
  {
    hide PhysByte, SegByte, InFilePart, Ready;
  }

  lemma SameContents(c: Vm, d: map<Frame, Bytes>, e: map<Frame, Bytes>, f: map<Frame, Bytes>, root: Frame,
                     ph: Phdr, file: seq<byte>, stale: nat -> byte, lo: nat, hi: nat)
    requires SameBytes(d, e, lo, lo) && Contents(c, e, f, root, ph, file, stale, lo, hi)
    ensures Contents(c, d, f, root, ph, file, stale, lo, hi)
  {
    hide PhysByte, SegByte, InFilePart, Ready;
  }

  lemma LoadedFacts(a: Vm, b: Vm, d: map<Frame, Bytes>, e: map<Frame, Bytes>, root: Frame,
                    ph: Phdr, file: seq<byte>, stale: nat -> byte, lo: nat, hi: nat)
    requires Loaded(a, b, d, e, root, ph, file, stale, lo, hi)
    ensures Keeps(a, b, d, e, root, lo, hi) && ImageOwned(b)
  {
  }

  /** Nothing is loaded yet, but a huge page may have been split. */
  lemma NothingLoaded(a: Vm, b: Vm, d: map<Frame, Bytes>, root: Frame, ph: Phdr, file: seq<byte>, stale: nat -> byte, start: nat)
    requires Good(a) && Good(b) && Extends(a, b) && SameWalks(a, b) && ImageOwned(a) && IsRoot(a.place, root)
    ensures Loaded(a, b, d, d, root, ph, file, stale, start, start)
  {
    SplitStep(a, b, d, root, start);
  }

  lemma EmptyLoaded(a: Vm, b: Vm, d: map<Frame, Bytes>, root: Frame, ph: Phdr, file: seq<byte>, stale: nat -> byte, start: nat, end: nat)
    requires Loaded(a, b, d, d, root, ph, file, stale, start, start) && end <= start
    ensures Loaded(a, b, d, d, root, ph, file, stale, start, end)
  {
    hide Contents, OnlyOpens, PhysByte, ImageOwned, PlacesKept, Ready;
    KeepsWiden(a, b, d, d, root, start, start, start, end);
  }

  /** One page of a segment: cleared, filled and given to user mode. */
  method LoadPage(m: Machine, fs: Vfs.FileSystem, path: Paths.Str, ghost fuel: nat, ph: Phdr, flags: Flags, stale: nat -> byte, addr: U64)
    returns (ok: bool)
    requires m.Valid() && ImageOwned(m.State()) && addr % PAGE_SIZE == 0 && flags == PRESENT.(writable := flags.writable)
    requires USER_IMAGE_PHYS_START <= addr < USER_IMAGE_PHYS_END
    requires fs.Valid() && Paths.NoNul(path) && VfsLinks.LookupFollow(fs.inodes, path, fuel).Some? && TheFile(fs.inodes, path, fuel).Some?
    modifies m`tables, m`place, m`data, m.frames.bits, m.frames`used
    ensures m.Valid() && Keeps(old(m.State()), m.State(), old(m.data), m.data, m.pml4, addr, addr + PAGE_SIZE)
    ensures ok ==>
      Loaded(old(m.State()), m.State(), old(m.data), m.data, m.pml4, ph, TheFile(fs.inodes, path, fuel).value, stale, addr, addr + PAGE_SIZE)
    ensures Ready(m.tables, m.pml4) || m.Starved(PageOf(WINDOW))
    ensures old(m.Starved(PageOf(WINDOW))) ==> m.Starved(PageOf(WINDOW)) && m.data == old(m.data)
    ensures old(m.Starved(PageOf(WINDOW))) ==>
      (ok <==> NoFilePart(ph, addr, addr + PAGE_SIZE) && old(HasPt(m.tables, m.pml4, PageOf(addr))))
    ensures old(HasPt(m.tables, m.pml4, PageOf(addr))) ==> (ok <==> Ready(m.tables, m.pml4) || NoFilePart(ph, addr, addr + PAGE_SIZE))
  {
    hide Good, Keeps, Copied, FileEnd, Filled, CopyStart, CopyEnd, Walk, PageOf, HasPt, ImageOwned, VfsSpec.TreeOk, TheFile, UserPages;
    hide NoFilePart;
    ghost var s0, d0, file := m.State(), m.data, TheFile(fs.inodes, path, fuel).value;
    var kbuf := ReadPage(fs, path, fuel, ph, stale, addr);
    NothingCopied(ph, file, stale, addr);
    ok := FillPage(m, ph, file, stale, addr, kbuf.value);
    if !ok {
      return;
    }
    ghost var s1 := m.State();
    KeepsFacts(s0, s1, d0, m.data, m.pml4, addr, addr + PAGE_SIZE);
    ok := m.PromoteUserIdentity(addr, flags);
    PromoteStep(s1, m.State(), m.data, m.pml4, addr, ok, flags);
    KeepsWithin(s0, s1, m.State(), d0, m.data, m.data, m.pml4, addr, addr + PAGE_SIZE);
    if ok {
      NewUserPage(m.tables, m.pml4, addr, flags);
    }
    assert AlignDown(addr) == addr;
  }

  lemma NothingCopied(ph: Phdr, file: seq<byte>, stale: nat -> byte, addr: nat)
    requires addr % PAGE_SIZE == 0
    ensures CopyStart(ph, addr) >= CopyEnd(ph, addr) <==> Copied(ph, file, stale, addr) == []
    ensures NoFilePart(ph, addr, addr + PAGE_SIZE) <==> CopyStart(ph, addr) >= CopyEnd(ph, addr)
  {
    hide FileEnd;
    assert AlignDown(addr) == addr;
    assert CopyStart(ph, addr) < CopyEnd(ph, addr) ==> InFilePart(ph, CopyStart(ph, addr));
  }

  function SegmentFlags(ph: Phdr): Flags { if ph.flags / 2 % 2 == 1 then PRESENT_WRITABLE else PRESENT }

  /** Loads one segment; `stale` gives the bytes the copy buffer held before, by the address they are written to. */
  method MapSegment(m: Machine, pd0: Frame, fs: Vfs.FileSystem, path: Paths.Str, ghost fuel: nat, ph: Phdr, stale: nat -> byte)
    returns (ok: bool)
    requires m.Valid() && ImageOwned(m.State()) && pd0 in m.place && m.place[pd0] == Pd(0, 0)
    requires fs.Valid() && Paths.NoNul(path) && VfsLinks.LookupFollow(fs.inodes, path, fuel).Some? && TheFile(fs.inodes, path, fuel).Some?
    modifies m`tables, m`place, m`data, m.frames.bits, m.frames`used
    ensures m.Valid() && Keeps(old(m.State()), m.State(), old(m.data), m.data, m.pml4, SegStart(ph), SegEnd(ph))
    ensures ok ==> InWindow(ph)
    ensures ok ==>
      Loaded(old(m.State()), m.State(), old(m.data), m.data, m.pml4, ph, TheFile(fs.inodes, path, fuel).value, stale, SegStart(ph), SegEnd(ph))
    ensures !ok && !InWindow(ph) ==> m.State() == old(m.State()) && m.data == old(m.data)
    ensures ok && SegStart(ph) < SegEnd(ph) ==> Ready(m.tables, m.pml4) || m.Starved(PageOf(WINDOW))
    ensures old(m.Starved(PageOf(WINDOW))) ==> m.Starved(PageOf(WINDOW))
    ensures old(ImageTables(m.tables, m.pml4)) && InWindow(ph) ==> (ok <==> Ready(m.tables, m.pml4) || NoFilePart(ph, SegStart(ph), SegEnd(ph)))
  {
    hide Good, Extends, SameWalks, Keeps, Loaded, ImageTables, TablesKept, FileEnd, Walk, PageOf, HasPt, ImageOwned, VfsSpec.TreeOk, TheFile, Ready;
    hide SegStart, SegEnd, VfsLinks.LookupFollow, Vfs.TargetsOk, LinksKept;
    var segStart, segEnd := SegStart(ph), SegEnd(ph);
    SegmentAligned(ph);
    ghost var s0, d0, file := m.State(), m.data, TheFile(fs.inodes, path, fuel).value;
    Basics(s0);
    KeepsNothing(s0, d0, m.pml4, segStart);
    KeepsWiden(s0, s0, d0, d0, m.pml4, segStart, segStart, segStart, segEnd);
    if segStart < USER_IMAGE_PHYS_START || segEnd > USER_IMAGE_PHYS_END {
      return false;
    }
    SplitHugeRange(m, pd0, segStart, segEnd);
    NothingLoaded(s0, m.State(), d0, m.pml4, ph, file, stale, segStart);
    LoadedFacts(s0, m.State(), d0, d0, m.pml4, ph, file, stale, segStart, segStart);
    KeepsTables(s0, m.State(), d0, d0, m.pml4, segStart, segStart);
    if segEnd <= segStart {
      EmptyLoaded(s0, m.State(), d0, m.pml4, ph, file, stale, segStart, segEnd);
      LoadedFacts(s0, m.State(), d0, m.data, m.pml4, ph, file, stale, segStart, segEnd);
      return true;
    }
    ok := MapPages(m, fs, path, fuel, ph, stale, segStart, segEnd, s0, d0);
    if ok {
      LoadedFacts(s0, m.State(), d0, m.data, m.pml4, ph, file, stale, segStart, segEnd);
    }
  }

  /** The loop over the pages of a segment, counted from the state `s0` with memory `d0`. */
  method MapPages(m: Machine, fs: Vfs.FileSystem, path: Paths.Str, ghost fuel: nat, ph: Phdr, stale: nat -> byte, segStart: U64, segEnd: U64,
                  ghost s0: Vm, ghost d0: map<Frame, Bytes>) returns (ok: bool)
    requires m.Valid() && fs.Valid() && Paths.NoNul(path) && VfsLinks.LookupFollow(fs.inodes, path, fuel).Some?
    requires TheFile(fs.inodes, path, fuel).Some? && segStart % PAGE_SIZE == 0 && segEnd % PAGE_SIZE == 0
    requires USER_IMAGE_PHYS_START <= segStart <= segEnd <= USER_IMAGE_PHYS_END
    requires Loaded(s0, m.State(), d0, m.data, m.pml4, ph, TheFile(fs.inodes, path, fuel).value, stale, segStart, segStart)
    modifies m`tables, m`place, m`data, m.frames.bits, m.frames`used
    ensures m.Valid() && Keeps(s0, m.State(), d0, m.data, m.pml4, segStart, segEnd)
    ensures ok ==> Loaded(s0, m.State(), d0, m.data, m.pml4, ph, TheFile(fs.inodes, path, fuel).value, stale, segStart, segEnd)
    ensures ok && segStart < segEnd ==> Ready(m.tables, m.pml4) || m.Starved(PageOf(WINDOW))
    ensures old(m.Starved(PageOf(WINDOW))) ==> m.Starved(PageOf(WINDOW))
    ensures old(ImageTables(m.tables, m.pml4)) && segStart < segEnd ==> (ok <==> Ready(m.tables, m.pml4) || NoFilePart(ph, segStart, segEnd))
  {
    hide Good, Keeps, Loaded, ImageOwned, VfsSpec.TreeOk, TheFile, VfsLinks.LookupFollow, Vfs.TargetsOk, ImageTables, TablesKept;
    hide PageOf, Ready, HasPt, Contents, NoFilePart, UserPages, InFilePart, SegByte, Copied, Walk;
    ghost var file := TheFile(fs.inodes, path, fuel).value;
    var addr := segStart;
    while addr < segEnd
      invariant addr % PAGE_SIZE == 0 && segStart <= addr <= segEnd
      invariant m.Valid() && Loaded(s0, m.State(), d0, m.data, m.pml4, ph, file, stale, segStart, addr)
      invariant segStart < addr ==> Ready(m.tables, m.pml4) || m.Starved(PageOf(WINDOW))
      invariant old(m.Starved(PageOf(WINDOW))) ==> m.Starved(PageOf(WINDOW))
      invariant old(ImageTables(m.tables, m.pml4)) ==> ImageTables(m.tables, m.pml4)
    {
      ghost var s1, d1 := m.State(), m.data;
      LoadedFacts(s0, s1, d0, d1, m.pml4, ph, file, stale, segStart, addr);
      PageFits(addr, segEnd);
      StarvedIsNotReady(m);
      ImagePage(m.tables, m.pml4, addr);
      ok := LoadPage(m, fs, path, fuel, ph, SegmentFlags(ph), stale, addr);
      StarvedIsNotReady(m);
      KeepsTables(s1, m.State(), d1, m.data, m.pml4, addr, addr + PAGE_SIZE);
      if !ok {
        FilePartWithin(ph, segStart, segEnd, addr, addr + PAGE_SIZE);
        KeepsChain(s0, s1, m.State(), d0, d1, m.data, m.pml4, segStart, addr, addr + PAGE_SIZE);
        KeepsWiden(s0, m.State(), d0, m.data, m.pml4, segStart, addr + PAGE_SIZE, segStart, segEnd);
        return;
      }
      LoadedOn(s0, s1, m.State(), d0, d1, m.data, m.pml4, ph, file, stale, segStart, addr, addr + PAGE_SIZE);
      addr := addr + PAGE_SIZE;
    }
    LoadedFacts(s0, m.State(), d0, m.data, m.pml4, ph, file, stale, segStart, segEnd);
    if segStart < segEnd { LoadedContents(s0, m.State(), d0, m.data, m.pml4, ph, file, stale, segStart, segEnd); }
    return true;
  }

  lemma ImagePage(ts: Tables, root: Frame, addr: U64)
    requires USER_IMAGE_PHYS_START <= addr < USER_IMAGE_PHYS_END
    ensures ImageTables(ts, root) ==> HasPt(ts, root, PageOf(addr))
  {
  }

  lemma KeepsTables(a: Vm, b: Vm, d: map<Frame, Bytes>, e: map<Frame, Bytes>, root: Frame, lo: nat, hi: nat)
    requires Keeps(a, b, d, e, root, lo, hi)
    ensures ImageTables(a.ts, root) ==> ImageTables(b.ts, root)
  {
    hide ImageTables, TablesKept;
    if ImageTables(a.ts, root) {
      ImageTablesKept(a.ts, b.ts, root);
    }
  }

  lemma FilePartWithin(ph: Phdr, lo: nat, hi: nat, from: nat, to: nat)
    requires lo <= from && to <= hi
    ensures NoFilePart(ph, lo, hi) ==> NoFilePart(ph, from, to)
  {
  }

  lemma LoadedContents(a: Vm, b: Vm, d: map<Frame, Bytes>, e: map<Frame, Bytes>, root: Frame,
                       ph: Phdr, file: seq<byte>, stale: nat -> byte, lo: nat, hi: nat)
    requires Loaded(a, b, d, e, root, ph, file, stale, lo, hi) && lo < hi
    ensures Ready(b.ts, root) || NoFilePart(ph, lo, hi)
  {
  }

  lemma SegmentAligned(ph: Phdr)
    ensures SegStart(ph) % PAGE_SIZE == 0 && SegEnd(ph) % PAGE_SIZE == 0 && SegStart(ph) < TWO64
  {
    hide AlignDown;
    DownAligned(ph.vaddr);
    DownAligned((ph.vaddr + ph.memsz + PAGE_SIZE - 1) % TWO64);
  }

  lemma PageFits(addr: nat, end: nat)
    requires addr % PAGE_SIZE == 0 && end % PAGE_SIZE == 0 && addr < end
    ensures addr + PAGE_SIZE <= end
  {
  }

  // ----- A whole image -----

  /** Every byte is as the first `n` program headers leave it. */
  ghost predicate ImageSoFar(d: map<Frame, Bytes>, e: map<Frame, Bytes>, file: seq<byte>, n: nat, stale: nat -> byte)
    requires |file| >= EHDR_SIZE
  {
    forall a: nat :: PhysByte(e, a) == ImageByte(file, n, stale, PhysByte(d, a), a)
  }

  /** The first `n` program headers are in the file; their segments lie in the window and belong to user mode. */
  ghost predicate SegmentsOpen(ts: Tables, root: Frame, file: seq<byte>, n: nat)
    requires |file| >= EHDR_SIZE
  {
    forall i :: 0 <= i < n ==>
      PhdrAt(file, i).Some? && (Loads(file, i) ==> SegmentOpen(ts, root, PhdrAt(file, i).value))
  }

  ghost predicate SegmentOpen(ts: Tables, root: Frame, ph: Phdr) {
    InWindow(ph) && UserPages(ts, root, SegStart(ph), SegEnd(ph))
  }

  /** None of the first `n` segments has bytes in the file. */
  ghost predicate NothingInFile(file: seq<byte>, n: nat)
    requires |file| >= EHDR_SIZE
  {
    forall i :: 0 <= i < n && Loads(file, i) ==> NoFilePart(PhdrAt(file, i).value, SegStart(PhdrAt(file, i).value), SegEnd(PhdrAt(file, i).value))
  }

  lemma NextSegment(a: Vm, b: Vm, d0: map<Frame, Bytes>, d: map<Frame, Bytes>, e: map<Frame, Bytes>, root: Frame,
                    file: seq<byte>, n: nat, stale: nat -> byte)
    requires |file| >= EHDR_SIZE && Loads(file, n) && InWindow(PhdrAt(file, n).value)
    requires var ph := PhdrAt(file, n).value; Loaded(a, b, d, e, root, ph, file, stale, SegStart(ph), SegEnd(ph))
    requires SegmentsOpen(a.ts, root, file, n)
    ensures SegmentsOpen(b.ts, root, file, n + 1)
    ensures Keeps(a, b, d, e, root, USER_IMAGE_PHYS_START, USER_IMAGE_PHYS_END)
  {
    hide Keeps, Contents, UserPages, OnlyOpens, ImageOwned, PlacesKept, PhysByte, PhdrAt, SegStart, SegEnd;
    var ph := PhdrAt(file, n).value;
    KeepsFacts(a, b, d, e, root, SegStart(ph), SegEnd(ph));
    KeepsWiden(a, b, d, e, root, SegStart(ph), SegEnd(ph), USER_IMAGE_PHYS_START, USER_IMAGE_PHYS_END);
    SegmentAligned(ph);
    forall i | 0 <= i < n && Loads(file, i)
      ensures SegmentOpen(b.ts, root, PhdrAt(file, i).value)
    {
      var other := PhdrAt(file, i).value;
      UserPagesKept(a, b, root, SegStart(other), SegEnd(other), SegStart(ph), SegEnd(ph));
    }
  }

  /** Memory after one more segment. */
  lemma NextContents(b: Vm, d0: map<Frame, Bytes>, d: map<Frame, Bytes>, e: map<Frame, Bytes>, root: Frame,
                     file: seq<byte>, n: nat, stale: nat -> byte)
    requires |file| >= EHDR_SIZE && Loads(file, n)
    requires var ph := PhdrAt(file, n).value;
      SameBytes(d, e, SegStart(ph), SegEnd(ph))
      && (SegStart(ph) < SegEnd(ph) ==> Contents(b, d, e, root, ph, file, stale, SegStart(ph), SegEnd(ph)))
    ensures var ph := PhdrAt(file, n).value;
      ImageSoFar(d0, d, file, n, stale) && (Ready(b.ts, root) || SegEnd(ph) <= SegStart(ph)) ==> ImageSoFar(d0, e, file, n + 1, stale)
    ensures !Ready(b.ts, root) && SameBytes(d0, d, 0, 0) && NothingInFile(file, n) ==>
      SameBytes(d0, e, 0, 0) && NothingInFile(file, n + 1)
  {
    hide Ready, PhysByte, SegByte, PhdrAt, SegStart, SegEnd, InFilePart;
  }

  lemma SkippedSegment(ts: Tables, root: Frame, d0: map<Frame, Bytes>, d: map<Frame, Bytes>, file: seq<byte>, n: nat, stale: nat -> byte)
    requires |file| >= EHDR_SIZE && PhdrAt(file, n).Some? && !Loads(file, n) && SegmentsOpen(ts, root, file, n)
    ensures SegmentsOpen(ts, root, file, n + 1)
    ensures ImageSoFar(d0, d, file, n, stale) ==> ImageSoFar(d0, d, file, n + 1, stale)
  {
    hide PhysByte, PhdrAt, SegmentOpen;
  }

  /** The first `n` program headers are loaded, counted from the state `a` with memory `d`. */
  ghost predicate Progress(a: Vm, b: Vm, d: map<Frame, Bytes>, e: map<Frame, Bytes>, root: Frame, file: seq<byte>, n: nat)
    requires |file| >= EHDR_SIZE
  {
    && Keeps(a, b, d, e, root, USER_IMAGE_PHYS_START, USER_IMAGE_PHYS_END)
    && SegmentsOpen(b.ts, root, file, n)
    && (!Ready(b.ts, root) ==> SameBytes(d, e, 0, 0) && NothingInFile(file, n))
  }

  lemma ProgressStarts(a: Vm, d: map<Frame, Bytes>, root: Frame, file: seq<byte>, stale: nat -> byte)
    requires |file| >= EHDR_SIZE && ImageOwned(a)
    ensures Progress(a, a, d, d, root, file, 0) && ImageSoFar(d, d, file, 0, stale)
  {
    hide PhysByte, Keeps;
    NothingKept(a, d, root);
  }

  lemma ProgressFacts(a: Vm, b: Vm, d: map<Frame, Bytes>, e: map<Frame, Bytes>, root: Frame, file: seq<byte>, n: nat)
    requires |file| >= EHDR_SIZE && Progress(a, b, d, e, root, file, n)
    ensures Keeps(a, b, d, e, root, USER_IMAGE_PHYS_START, USER_IMAGE_PHYS_END) && ImageOwned(b) && PlacesKept(a, b)
  {
  }

  lemma ProgressNext(a: Vm, b: Vm, c: Vm, d: map<Frame, Bytes>, e: map<Frame, Bytes>, f: map<Frame, Bytes>, root: Frame,
                     file: seq<byte>, n: nat, stale: nat -> byte)
    requires |file| >= EHDR_SIZE && Progress(a, b, d, e, root, file, n) && Loads(file, n) && InWindow(PhdrAt(file, n).value)
    requires var ph := PhdrAt(file, n).value; Loaded(b, c, e, f, root, ph, file, stale, SegStart(ph), SegEnd(ph))
    ensures Progress(a, c, d, f, root, file, n + 1)
    ensures var ph := PhdrAt(file, n).value;
      ImageSoFar(d, e, file, n, stale) && (Ready(c.ts, root) || SegEnd(ph) <= SegStart(ph)) ==> ImageSoFar(d, f, file, n + 1, stale)
  {
    hide Contents, Ready, ImageSoFar, SegmentsOpen, SegStart, SegEnd, PhdrAt, OnlyOpens, SameBytes;
    hide ImageOwned, PlacesKept, Keeps, NothingInFile, UserPages;
    var ph := PhdrAt(file, n).value;
    KeepsFacts(a, b, d, e, root, USER_IMAGE_PHYS_START, USER_IMAGE_PHYS_END);
    KeepsFacts(b, c, e, f, root, SegStart(ph), SegEnd(ph));
    NextSegment(b, c, d, e, f, root, file, n, stale);
    NextContents(c, d, e, f, root, file, n, stale);
    KeepsWithin(a, b, c, d, e, f, root, USER_IMAGE_PHYS_START, USER_IMAGE_PHYS_END);
  }

  /**
    What a successful load comes to: the header is good and the segments are open.
    Memory is as they leave it if the window has its page table; otherwise memory is
    as it was, and no segment had bytes in the file.
   */
  ghost predicate ImageLoaded(a: Vm, b: Vm, d: map<Frame, Bytes>, e: map<Frame, Bytes>, root: Frame,
                              found: Paths.Option<seq<byte>>, stale: nat -> byte, entry: U64)
  {
    && found.Some? && |found.value| >= EHDR_SIZE && HeaderOk(found.value[..EHDR_SIZE]) && entry == Word(found.value[24..32])
    && SegmentsOpen(b.ts, root, found.value, PhdrCount(found.value))
    && (Ready(a.ts, root) ==> Ready(b.ts, root))
    && (if Ready(b.ts, root) then ImageSoFar(d, e, found.value, PhdrCount(found.value), stale)
        else SameBytes(d, e, 0, 0) && NothingInFile(found.value, PhdrCount(found.value)))
  }

  /**
    What the loader demands of a file: a good header, all program headers in the file, and
    all loadable segments in the window.
   */
  ghost predicate Acceptable(found: Paths.Option<seq<byte>>) {
    && found.Some? && |found.value| >= EHDR_SIZE && HeaderOk(found.value[..EHDR_SIZE])
    && forall i :: 0 <= i < PhdrCount(found.value) ==>
         PhdrAt(found.value, i).Some? && (Loads(found.value, i) ==> InWindow(PhdrAt(found.value, i).value))
  }

  /** What a load has come to when it fails: the file is refused, or no frame was left for the window and the file has bytes to write. */
  ghost predicate Refused(ts: Tables, root: Frame, found: Paths.Option<seq<byte>>) {
    !Acceptable(found) || (!Ready(ts, root) && found.Some? && |found.value| >= EHDR_SIZE && !NothingInFile(found.value, PhdrCount(found.value)))
  }

  /** One turn of the loop over the program headers, counted from the state `s0` with memory `d0`. */
  method LoadSegment(m: Machine, pd0: Frame, fs: Vfs.FileSystem, path: Paths.Str, ghost fuel: nat, stale: nat -> byte, phoff: U64, i: nat,
                     ghost file: seq<byte>, ghost s0: Vm, ghost d0: map<Frame, Bytes>) returns (ok: bool)
    requires m.Valid() && pd0 in m.place && m.place[pd0] == Pd(0, 0) && Good(s0)
    requires fs.Valid() && Paths.NoNul(path) && VfsLinks.LookupFollow(fs.inodes, path, fuel).Some? && TheFile(fs.inodes, path, fuel) == Paths.Some(file)
    requires |file| >= EHDR_SIZE && phoff == Word(file[32..40]) && i < PhdrCount(file)
    requires Progress(s0, m.State(), d0, m.data, m.pml4, file, i)
    requires ImageSoFar(d0, m.data, file, i, stale) || m.Starved(PageOf(WINDOW))
    modifies m`tables, m`place, m`data, m.frames.bits, m.frames`used
    ensures m.Valid() && Keeps(s0, m.State(), d0, m.data, m.pml4, USER_IMAGE_PHYS_START, USER_IMAGE_PHYS_END)
    ensures ok ==> Progress(s0, m.State(), d0, m.data, m.pml4, file, i + 1)
    ensures ok ==> ImageSoFar(d0, m.data, file, i + 1, stale) || m.Starved(PageOf(WINDOW))
    ensures !ok && ImageTables(s0.ts, m.pml4) ==> Refused(m.tables, m.pml4, Paths.Some(file))
  {
    hide Good, Keeps, Loaded, Progress, Walk, HasPt, ImageOwned, VfsSpec.TreeOk, TheFile, Ready, HeaderOk, VfsLinks.LookupFollow;
    hide PhdrAt, ImageSoFar, SegmentsOpen, InWindow, Le, Word, ParsePhdr, SegStart, SegEnd, Vfs.ReadBytes, SameBytes, NothingInFile, PageOf;
    hide ImageTables, TablesKept, Acceptable, NoFilePart, Vfs.Part;
    ghost var s1, d1 := m.State(), m.data;
    ProgressFacts(s0, s1, d0, d1, m.pml4, file, i);
    KeepsTables(s0, s1, d0, d1, m.pml4, USER_IMAGE_PHYS_START, USER_IMAGE_PHYS_END);
    var off := (phoff + i * PHDR_SIZE) % TWO64;
    ReadIsPart(fs.inodes, path, fuel, off, PHDR_SIZE);
    var raw := fs.ReadAt(path, off, PHDR_SIZE, fuel);
    if raw.None? || |raw.value| != PHDR_SIZE {
      PhdrRefused(file, i, off);
      return false;
    }
    PhdrRead(file, i, off, raw.value);
    var ph := ParsePhdr(raw.value);
    if ph.kind != PT_LOAD {
      ProgressSkips(s0, s1, d0, d1, m.pml4, file, i, stale);
      return true;
    }
    ok := MapSegment(m, pd0, fs, path, fuel, ph, stale);
    if !ok {
      SegmentFailed(s0, s1, m.State(), d0, d1, m.data, m.pml4, ph);
      SegmentRefused(file, i);
      return;
    }
    ProgressNext(s0, s1, m.State(), d0, d1, m.data, m.pml4, file, i, stale);
    ProgressFacts(s0, m.State(), d0, m.data, m.pml4, file, i + 1);
  }

  /**
    `elf_load`. When it succeeds, every loadable segment lies in the window for fixed
    images and belongs to user mode at its own addresses, and memory is as `ImageLoaded`
    says, whether clearing the pages succeeded or not. With page tables for all pages of
    the window for images, as after boot, it succeeds exactly for an acceptable file, and,
    if no frame is left for a page table of the kernel window, one without file bytes.
   */
  method Load(m: Machine, pd0: Frame, fs: Vfs.FileSystem, path: Paths.Str, ghost fuel: nat, stale: nat -> byte)
    returns (ok: bool, entry: U64)
    requires m.Valid() && ImageOwned(m.State()) && pd0 in m.place && m.place[pd0] == Pd(0, 0)
    requires fs.Valid() && Paths.NoNul(path) && VfsLinks.LookupFollow(fs.inodes, path, fuel).Some?
    modifies m`tables, m`place, m`data, m.frames.bits, m.frames`used
    ensures m.Valid()
    ensures Keeps(old(m.State()), m.State(), old(m.data), m.data, m.pml4, USER_IMAGE_PHYS_START, USER_IMAGE_PHYS_END)
    ensures ok ==>
      ImageLoaded(old(m.State()), m.State(), old(m.data), m.data, m.pml4, TheFile(fs.inodes, path, fuel), stale, entry)
    ensures old(ImageTables(m.tables, m.pml4)) ==>
      var found := TheFile(fs.inodes, path, fuel);
      ok <==> Acceptable(found) && (Ready(m.tables, m.pml4) || NothingInFile(found.value, PhdrCount(found.value)))
  {
    hide Good, Keeps, Progress, HasPt, ImageOwned, VfsSpec.TreeOk, TheFile, Ready, HeaderOk, VfsLinks.LookupFollow;
    hide ImageSoFar, SegmentsOpen, Le, Word, Vfs.ReadBytes, SameBytes, NothingInFile, PageOf;
    hide ImageTables, Acceptable, Vfs.Part;
    ghost var s0, d0, found := m.State(), m.data, TheFile(fs.inodes, path, fuel);
    entry := 0;
    ReadIsPart(fs.inodes, path, fuel, 0, EHDR_SIZE);
    NothingKept(s0, d0, m.pml4);
    var hdr := fs.ReadAt(path, 0, EHDR_SIZE, fuel);
    HeaderRefused(found, hdr);
    if hdr.None? || |hdr.value| != EHDR_SIZE || !HeaderOk(hdr.value) {
      return false, 0;
    }
    ghost var file := found.value;
    HeaderRead(file, hdr.value);
    var phoff, phnum := Word(hdr.value[32..40]), Le(hdr.value[56..58]);
    var i := 0;
    ProgressStarts(s0, d0, m.pml4, file, stale);
    while i < phnum
      invariant i <= phnum && m.Valid() && Progress(s0, m.State(), d0, m.data, m.pml4, file, i)
      invariant ImageSoFar(d0, m.data, file, i, stale) || m.Starved(PageOf(WINDOW))
    {
      ProgressFacts(s0, m.State(), d0, m.data, m.pml4, file, i);
      ok := LoadSegment(m, pd0, fs, path, fuel, stale, phoff, i, file, s0, d0);
      if !ok {
        return false, 0;
      }
      i := i + 1;
    }
    ProgressFacts(s0, m.State(), d0, m.data, m.pml4, file, i);
    ProgressEnds(s0, m.State(), d0, m.data, m.pml4, file, i);
    StarvedIsNotReady(m);
    ImageAccepted(m.tables, m.pml4, file);
    return true, Word(hdr.value[24..32]);
  }

  lemma HeaderRefused(found: Paths.Option<seq<byte>>, hdr: Paths.Option<seq<byte>>)
    requires hdr == if found.None? then Paths.None else Paths.Some(Vfs.Part(found.value, 0, EHDR_SIZE))
    ensures hdr.None? || |hdr.value| != EHDR_SIZE || !HeaderOk(hdr.value) ==> !Acceptable(found)
  {
    hide HeaderOk, PhdrAt;
    if found.Some? && |found.value| >= EHDR_SIZE {
      assert hdr.value == found.value[..EHDR_SIZE];
    }
  }

  lemma PhdrRefused(file: seq<byte>, i: nat, off: nat)
    requires |file| >= EHDR_SIZE && off == (Word(file[32..40]) + i * PHDR_SIZE) % TWO64 && i < PhdrCount(file)
    requires |Vfs.Part(file, off, PHDR_SIZE)| != PHDR_SIZE
    ensures !Acceptable(Paths.Some(file))
  {
    hide HeaderOk, ParsePhdr, Word, PhdrCount;
    assert PhdrAt(file, i).None?;
  }

  lemma SegmentRefused(file: seq<byte>, i: nat)
    requires |file| >= EHDR_SIZE && i < PhdrCount(file) && Loads(file, i)
    ensures var ph := PhdrAt(file, i).value;
      && (!InWindow(ph) ==> !Acceptable(Paths.Some(file)))
      && (!NoFilePart(ph, SegStart(ph), SegEnd(ph)) ==> !NothingInFile(file, PhdrCount(file)))
  {
    hide HeaderOk, PhdrAt, InWindow, NoFilePart, PhdrCount, SegStart, SegEnd;
  }

  lemma ImageAccepted(ts: Tables, root: Frame, file: seq<byte>)
    requires |file| >= EHDR_SIZE && HeaderOk(file[..EHDR_SIZE]) && SegmentsOpen(ts, root, file, PhdrCount(file))
    ensures Acceptable(Paths.Some(file))
  {
    hide HeaderOk, PhdrAt, UserPages, InWindow, PhdrCount;
    forall i | 0 <= i < PhdrCount(file)
      ensures PhdrAt(file, i).Some? && (Loads(file, i) ==> InWindow(PhdrAt(file, i).value))
    {
      assert Loads(file, i) ==> SegmentOpen(ts, root, PhdrAt(file, i).value);
    }
  }

  lemma NothingKept(a: Vm, d: map<Frame, Bytes>, root: Frame)
    requires ImageOwned(a)
    ensures Keeps(a, a, d, d, root, USER_IMAGE_PHYS_START, USER_IMAGE_PHYS_END)
  {
    KeepsNothing(a, d, root, USER_IMAGE_PHYS_START);
    KeepsWiden(a, a, d, d, root, USER_IMAGE_PHYS_START, USER_IMAGE_PHYS_START, USER_IMAGE_PHYS_START, USER_IMAGE_PHYS_END);
  }

  lemma ProgressSkips(a: Vm, b: Vm, d: map<Frame, Bytes>, e: map<Frame, Bytes>, root: Frame, file: seq<byte>, n: nat, stale: nat -> byte)
    requires |file| >= EHDR_SIZE && Progress(a, b, d, e, root, file, n) && PhdrAt(file, n).Some? && !Loads(file, n)
    ensures Progress(a, b, d, e, root, file, n + 1)
    ensures ImageSoFar(d, e, file, n, stale) ==> ImageSoFar(d, e, file, n + 1, stale)
  {
    hide Keeps, Ready, SegmentsOpen, ImageSoFar, PhdrAt, SameBytes, NoFilePart, SegStart, SegEnd;
    SkippedSegment(b.ts, root, d, e, file, n, stale);
  }

  lemma ProgressEnds(a: Vm, b: Vm, d: map<Frame, Bytes>, e: map<Frame, Bytes>, root: Frame, file: seq<byte>, n: nat)
    requires |file| >= EHDR_SIZE && Progress(a, b, d, e, root, file, n)
    ensures SegmentsOpen(b.ts, root, file, n) && (Ready(a.ts, root) ==> Ready(b.ts, root))
    ensures !Ready(b.ts, root) ==> SameBytes(d, e, 0, 0) && NothingInFile(file, n)
  {
  }

  lemma StarvedIsNotReady(m: Machine)
    ensures m.Starved(PageOf(WINDOW)) ==> !Ready(m.tables, m.pml4)
  {
  }

  lemma HeaderRead(file: seq<byte>, hdr: seq<byte>)
    requires hdr == Vfs.Part(file, 0, EHDR_SIZE) && |hdr| == EHDR_SIZE
    ensures |file| >= EHDR_SIZE && hdr == file[..EHDR_SIZE]
    ensures hdr[32..40] == file[32..40] && hdr[56..58] == file[56..58] && hdr[24..32] == file[24..32]
  {
    assert hdr == file[..EHDR_SIZE];
    assert file[..EHDR_SIZE][32..40] == file[32..40] && file[..EHDR_SIZE][56..58] == file[56..58];
  }

  lemma PhdrRead(file: seq<byte>, i: nat, off: nat, raw: seq<byte>)
    requires |file| >= EHDR_SIZE && off == (Word(file[32..40]) + i * PHDR_SIZE) % TWO64
    requires raw == Vfs.Part(file, off, PHDR_SIZE) && |raw| == PHDR_SIZE
    ensures PhdrAt(file, i) == Paths.Some(ParsePhdr(raw))
  {
    hide ParsePhdr;
    assert raw[PHDR_SIZE - 1] == file[off + PHDR_SIZE - 1];
    assert raw == file[off..off + PHDR_SIZE];
  }

  lemma SegmentFailed(a: Vm, b: Vm, c: Vm, d: map<Frame, Bytes>, e: map<Frame, Bytes>, f: map<Frame, Bytes>, root: Frame, ph: Phdr)
    requires Keeps(a, b, d, e, root, USER_IMAGE_PHYS_START, USER_IMAGE_PHYS_END)
    requires Keeps(b, c, e, f, root, SegStart(ph), SegEnd(ph)) && (!InWindow(ph) ==> c == b && f == e)
    ensures Keeps(a, c, d, f, root, USER_IMAGE_PHYS_START, USER_IMAGE_PHYS_END)
  {
    hide Keeps, SegStart, SegEnd;
    if InWindow(ph) {
      KeepsWiden(b, c, e, f, root, SegStart(ph), SegEnd(ph), USER_IMAGE_PHYS_START, USER_IMAGE_PHYS_END);
      KeepsWithin(a, b, c, d, e, f, root, USER_IMAGE_PHYS_START, USER_IMAGE_PHYS_END);
    }
  }

  /** Every byte of the first `n` segments was zero before. */
  ghost predicate AlreadyZero(d: map<Frame, Bytes>, file: seq<byte>, n: nat)
    requires |file| >= EHDR_SIZE
  {
    forall i, x: nat :: 0 <= i < n && Covers(file, i, x) ==> PhysByte(d, x) == 0
  }

  predicate Covers(file: seq<byte>, i: nat, x: nat)
    requires |file| >= EHDR_SIZE
  {
    Loads(file, i) && InSegment(PhdrAt(file, i).value, x)
  }

  /**
    After a successful load, memory is as the segments leave it if and only if the
    kernel window has its page table, so that clearing did not fail, or all of their
    bytes were zero before.
   */
  lemma ContentsIff(a: Vm, b: Vm, d: map<Frame, Bytes>, e: map<Frame, Bytes>, root: Frame,
                    file: seq<byte>, stale: nat -> byte, entry: U64)
    requires ImageLoaded(a, b, d, e, root, Paths.Some(file), stale, entry)
    ensures ImageSoFar(d, e, file, PhdrCount(file), stale) <==> Ready(b.ts, root) || AlreadyZero(d, file, PhdrCount(file))
  {
    hide PhysByte, ImageByte, PhdrCount, Ready, HeaderOk, Word, Covers, NothingInFile, SegmentsOpen, PhdrAt;
    var n := PhdrCount(file);
    if !Ready(b.ts, root) {
      forall x: nat
        ensures PhysByte(e, x) == PhysByte(d, x)
        ensures ImageByte(file, n, stale, PhysByte(d, x), x) ==
          if exists i :: 0 <= i < n && Covers(file, i, x) then 0 else PhysByte(d, x)
      {
        ImageOfZeros(file, n, stale, PhysByte(d, x), x);
      }
    }
  }

  lemma {:induction false} ImageOfZeros(file: seq<byte>, n: nat, stale: nat -> byte, before: byte, x: nat)
    requires |file| >= EHDR_SIZE && NothingInFile(file, n)
    ensures ImageByte(file, n, stale, before, x) == if exists i :: 0 <= i < n && Covers(file, i, x) then 0 else before
  {
    hide PhdrAt, SegStart, SegEnd, InFilePart;
    if n > 0 {
      ImageOfZeros(file, n - 1, stale, before, x);
      assert Covers(file, n - 1, x) || forall i :: 0 <= i < n && Covers(file, i, x) ==> i < n - 1;
    }
  }

  /**
    After a successful load each page-disjoint, proper segment is in place: its file
    bytes at its address, zero on the rest of its pages, and every page open to user
    mode and writable at its own address.
   */
  lemma SegmentInPlace(a: Vm, b: Vm, d: map<Frame, Bytes>, e: map<Frame, Bytes>, root: Frame,
                       file: seq<byte>, stale: nat -> byte, entry: U64, i: nat, x: U64)
    requires ImageLoaded(a, b, d, e, root, Paths.Some(file), stale, entry)
    requires Ready(b.ts, root) || AlreadyZero(d, file, PhdrCount(file))
    requires PageDisjoint(file, PhdrCount(file)) && i < PhdrCount(file) && Loads(file, i)
    requires Proper(PhdrAt(file, i).value, file) && InSegment(PhdrAt(file, i).value, x)
    ensures var ph := PhdrAt(file, i).value;
      PhysByte(e, x) == if ph.vaddr <= x < ph.vaddr + ph.filesz then file[ph.offset + (x - ph.vaddr)] else 0
    ensures Walk(b.ts, root, PageOf(x)) == Mapped(x / PAGE_SIZE, PRESENT_WRITABLE_USER, true, true, false)
  {
    hide PhysByte, Walk, PageOf, ImageByte, PhdrCount, Ready, HeaderOk, Word;
    var ph := PhdrAt(file, i).value;
    ContentsIff(a, b, d, e, root, file, stale, entry);
    assert PhysByte(e, x) == ImageByte(file, PhdrCount(file), stale, PhysByte(d, x), x);
    DisjointImage(file, PhdrCount(file), i, stale, PhysByte(d, x), x);
    SegmentRule(ph, file, stale, x);
    assert SegmentOpen(b.ts, root, ph);
    assert UserPage(b.ts, root, x);
  }
}
