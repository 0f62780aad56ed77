/**
  The page-table editor: creating tables on demand, splitting huge pages,
  mapping, unmapping and looking up pages, over the frame allocator.
 */
module Paging {
  import opened Frames
  import opened PageTables
  import Paths

  type byte = Paths.byte
  type Bytes = b: seq<byte> | |b| == 4096 witness seq(4096, _ => 0)

  /** The four table indices of a virtual address; the bits above 47 are ignored. */
  function PageOf(virt: U64): Page {
    Page(virt / 0x80_0000_0000 % 512, virt / 0x4000_0000 % 512, virt / 0x20_0000 % 512, virt / 0x1000 % 512)
  }

  /** Pages in address order. */
  function Num(q: Page): nat { ((q.i4 * 512 + q.i3) * 512 + q.i2) * 512 + q.i1 }

  /** `phys & PTE_ADDR_MASK`, as a frame number: bits 12 to 51. */
  function FrameOf(phys: U64): Frame { phys / PAGE_SIZE % 0x100_0000_0000 }

  function PdUserAfter(ts: Tables, r: Frame, p: Page, tableUser: bool): bool {
    var e4 := At(ts, r, p.i4);
    if !e4.flags.present then tableUser else
    var e3 := At(ts, e4.frame, p.i3);
    e4.flags.user && if e3.flags.present then e3.flags.user else tableUser
  }

  /** A split huge page is no longer a user link; a missing table gets the bit asked for. */
  function LastUserAfter(e2: Entry, tableUser: bool): bool {
    if !e2.flags.present then tableUser else !e2.flags.huge && e2.flags.user
  }

  /** The user bit above the leaf of page `p` once the missing tables exist and a huge page is split. */
  function UpperUserAfter(ts: Tables, r: Frame, p: Page, tableUser: bool): bool {
    PdUserAfter(ts, r, p, tableUser)
    && LastUserAfter(if HasPd(ts, r, p) then At(ts, PdOf(ts, r, p), p.i2) else ZERO, tableUser)
  }

  lemma LeafFlags(phys: U64, flags: Flags, upper: bool)
    ensures flags.present ==>
      LeafMapping(Entry(FrameOf(phys), flags), upper) ==
        Mapped(FrameOf(phys), flags.(huge := false), upper && flags.user, flags.writable, flags.nx)
  {
  }

  /** Every link there is on the way to page `p` carries the user bit, and no huge page is there. */
  predicate OpenWay(ts: Tables, r: Frame, p: Page) {
    var e4 := At(ts, r, p.i4);
    var e3 := At(ts, e4.frame, p.i3);
    var e2 := At(ts, e3.frame, p.i2);
    && (e4.flags.present ==> e4.flags.user)
    && (e4.flags.present && e3.flags.present ==> e3.flags.user)
    && (e4.flags.present && e3.flags.present && e2.flags.present ==> e2.flags.user && !e2.flags.huge)
  }

  /** The way to a page is open to user mode afterwards if and only if it was open and new links are. */
  lemma OpensIff(ts: Tables, r: Frame, p: Page, tableUser: bool)
    ensures UpperUserAfter(ts, r, p, true) <==> OpenWay(ts, r, p)
    ensures UpperUserAfter(ts, r, p, tableUser) ==> OpenWay(ts, r, p) && (tableUser || HasPt(ts, r, p))
  {
  }

  /** The flags of a present entry, or those a new link would get. */
  function FlagsOr(e: Entry, fl: Flags): Flags { if e.flags.present then e.flags else fl }

  /** The 2 MiB entry the boot code writes for directory slot `i`: present, writable, huge. */
  function BootHuge(i: nat): Entry { Entry(i * 512, PRESENT_WRITABLE.(huge := true)) }

  function BootTables(pml4: Frame, pdpt: Frame, pd: Frame): Tables {
    map[pml4 := ZeroTable()[0 := Entry(pdpt, PRESENT_WRITABLE)],
        pdpt := ZeroTable()[0 := Entry(pd, PRESENT_WRITABLE)],
        pd := ZeroTable()[0 := BootHuge(0)][1 := BootHuge(1)]]
  }

  ghost function BootState(pml4: Frame, pdpt: Frame, pd: Frame, used: set<Frame>): Vm {
    Vm(BootTables(pml4, pdpt, pd), map[pml4 := Root, pdpt := Pdpt(0), pd := Pd(0, 0)], used)
  }

  /** The tables the boot code leaves: 0 to 4 MiB identity mapped by two huge pages, nothing else. */
  lemma BootIsGood(pml4: Frame, pdpt: Frame, pd: Frame, used: set<Frame>)
    requires {pml4, pdpt, pd} <= used && 0 !in {pml4, pdpt, pd}
    requires pml4 != pdpt && pml4 != pd && pdpt != pd
    ensures Good(BootState(pml4, pdpt, pd, used)) && IsRoot(BootState(pml4, pdpt, pd, used).place, pml4)
    ensures forall p :: Walk(BootTables(pml4, pdpt, pd), pml4, p) == BootMapping(p)
  {
    var v := BootState(pml4, pdpt, pd, used);
    var ts := v.ts;
    assert ts[pml4] == ZeroTable()[0 := Entry(pdpt, PRESENT_WRITABLE)];
    assert ts[pdpt] == ZeroTable()[0 := Entry(pd, PRESENT_WRITABLE)];
    assert ts[pd] == ZeroTable()[0 := BootHuge(0)][1 := BootHuge(1)];
    forall p
      ensures Walk(ts, pml4, p) == BootMapping(p)
    {
    }
    forall f, i: Idx | f in ts
      ensures EntryOk(v.place, v.place[f], i, At(ts, f, i))
      ensures IsHuge(v.place[f], At(ts, f, i)) ==> !At(ts, f, i).flags.user
    {
    }
  }

  function BootMapping(p: Page): Mapping {
    if p.i4 == 0 && p.i3 == 0 && p.i2 < 2
    then Mapped(p.i2 * 512 + p.i1, PRESENT_WRITABLE, false, true, false) else Unmapped
  }

  lemma Chain(a: Vm, b: Vm, c: Vm)
    requires Good(a) && Good(b)
    requires Extends(a, b) && SameWalks(a, b) && Extends(b, c) && SameWalks(b, c)
    ensures Extends(a, c) && SameWalks(a, c)
  {
    ExtendsTransitive(a, b, c);
    SameTransitive(a, b, c);
  }

  /** The offset in a 2 MiB page is the last index and the offset in the 4 KiB page. */
  lemma LowBits(virt: U64)
    ensures virt % 0x20_0000 == PageOf(virt).i1 * PAGE_SIZE + virt % PAGE_SIZE
  {
    TwoDigits(virt);
  }

  lemma TwoDigits(v: nat)
    ensures v % 0x20_0000 == v / 0x1000 % 512 * 0x1000 + v % 0x1000
  {
    var n := v / 0x1000;
    assert v == n / 512 * 0x20_0000 + (n % 512 * 0x1000 + v % 0x1000);
  }

  lemma OnlyPageRefl(a: Vm, p: Page)
    ensures OnlyPage(a, a, p)
  {
  }

  lemma OthersRefl(a: Vm)
    requires Good(a)
    ensures forall root :: KeepsOthers(a, a, root)
  {
  }

  lemma StoreTouches(a: Vm, b: Vm, root: Frame, p: Page)
    requires Good(a) && IsRoot(a.place, root) && HasPt(a.ts, root, p)
    requires forall f :: f in a.ts && f != PtOf(a.ts, root, p) ==> f in b.ts && b.ts[f] == a.ts[f]
    ensures KeepsOthers(a, b, root)
  {
    HasPtPlace(a, root, p);
    OneTable(a, b, root, PtOf(a.ts, root, p));
  }

  lemma PlaceKept(a: Vm, b: Vm, f: Frame)
    requires Extends(a, b) && f in a.place
    ensures f in b.place && b.place[f] == a.place[f]
  {
  }

  /** What a promoted page translates to: itself, user and writable at every level. */
  function UserIdentity(virt: U64, flags: Flags): Mapping {
    if !flags.present then Unmapped
    else Mapped(virt / PAGE_SIZE, flags.(user := true, writable := true, huge := false), true, true, flags.nx)
  }

  lemma OpensThenStore(a: Vm, b: Vm, c: Vm, p: Page)
    requires a.place == b.place == c.place && OpensOnly(a, b) && OnlyPage(b, c, p)
    ensures forall r, q :: IsRoot(a.place, r) && q != p ==> Opened(Walk(a.ts, r, q), Walk(c.ts, r, q))
  {
    forall r, q | IsRoot(a.place, r) && q != p
      ensures Opened(Walk(a.ts, r, q), Walk(c.ts, r, q))
    {
      assert Opened(Walk(a.ts, r, q), Walk(b.ts, r, q));
      assert Walk(c.ts, r, q) == Walk(b.ts, r, q);
    }
  }

  // ----- The kernel mapping window -----

  const WINDOW: U64 := 0x0500_0000

  /** The two pages of the window. */
  predicate IsWindow(p: Page) { p == Page(0, 0, 40, 0) || p == Page(0, 0, 40, 1) }

  /** From every root, every page outside the window translates as before. */
  ghost predicate OnlyWindow(a: Vm, b: Vm) {
    forall r, q :: IsRoot(a.place, r) && !IsWindow(q) ==> Walk(b.ts, r, q) == Walk(a.ts, r, q)
  }

  /** From `root` no page changes but those of the window, which at most become unmapped; nothing becomes free. */
  ghost predicate SourceKept(a: Vm, b: Vm, root: Frame) {
    && a.used <= b.used
    && forall q :: Walk(b.ts, root, q) == Walk(a.ts, root, q) || (IsWindow(q) && Walk(b.ts, root, q) == Unmapped)
  }

  lemma SourceKeptChain(a: Vm, b: Vm, c: Vm, root: Frame)
    requires SourceKept(a, b, root) && SourceKept(b, c, root)
    ensures SourceKept(a, c, root)
  {
    hide Walk;
    forall q
      ensures Walk(c.ts, root, q) == Walk(a.ts, root, q) || (IsWindow(q) && Walk(c.ts, root, q) == Unmapped)
    {
      assert Walk(b.ts, root, q) == Walk(a.ts, root, q) || (IsWindow(q) && Walk(b.ts, root, q) == Unmapped);
    }
  }

  lemma SourceKeptSame(a: Vm, b: Vm, root: Frame)
    requires a.used <= b.used && forall q :: Walk(b.ts, root, q) == Walk(a.ts, root, q)
    ensures SourceKept(a, b, root)
  {
  }

  lemma SameIsOnlyWindow(a: Vm, b: Vm)
    requires SameWalks(a, b)
    ensures OnlyWindow(a, b)
  {
  }

  lemma OnlyPageIsOnlyWindow(a: Vm, b: Vm, p: Page)
    requires OnlyPage(a, b, p) && IsWindow(p)
    ensures OnlyWindow(a, b)
  {
  }

  lemma ChainWindow(a: Vm, b: Vm, c: Vm)
    requires Good(a) && Good(b)
    requires Extends(a, b) && OnlyWindow(a, b) && Extends(b, c) && OnlyWindow(b, c)
    ensures Extends(a, c) && OnlyWindow(a, c)
  {
    ExtendsTransitive(a, b, c);
    forall r, q | IsRoot(a.place, r) && !IsWindow(q)
      ensures Walk(c.ts, r, q) == Walk(a.ts, r, q)
    {
      assert IsRoot(b.place, r);
      assert Walk(b.ts, r, q) == Walk(a.ts, r, q);
    }
  }

  lemma SameIsKept(a: Vm, b: Vm, r: Frame)
    requires Good(a) && Good(b) && Extends(a, b) && SameWalks(a, b) && IsRoot(a.place, r)
    ensures SourceKept(a, b, r)
  {
    NewTablesWereFree(a, b);
  }

  /** Mapping the first window page and unmapping it again. */
  lemma WindowUsed(a: Vm, b: Vm, c: Vm, root: Frame)
    requires Good(a) && Good(b) && Good(c) && Extends(a, b) && Extends(b, c) && IsRoot(a.place, root)
    requires OnlyPage(a, b, PageOf(WINDOW)) && OnlyPage(b, c, PageOf(WINDOW)) && Walk(c.ts, root, PageOf(WINDOW)) == Unmapped
    requires KeepsOthers(a, b, root) && KeepsOthers(b, c, root)
    ensures Extends(a, c) && OnlyWindow(a, c) && SourceKept(a, c, root) && KeepsOthers(a, c, root)
  {
    hide Good, Extends, KeepsOthers, Walk, OnlyPage, OnlyWindow, SourceKept;
    OnlyPageIsOnlyWindow(a, b, PageOf(WINDOW));
    OnlyPageIsOnlyWindow(b, c, PageOf(WINDOW));
    PlaceKept(a, b, root);
    OthersTransitive(a, b, c, root);
    ChainWindow(a, b, c);
    NewTablesWereFree(a, c);
    WindowUnmapped(a, b, c, root);
  }

  lemma WindowUnmapped(a: Vm, b: Vm, c: Vm, root: Frame)
    requires IsRoot(a.place, root) && IsRoot(b.place, root) && a.used <= c.used
    requires OnlyPage(a, b, PageOf(WINDOW)) && OnlyPage(b, c, PageOf(WINDOW)) && Walk(c.ts, root, PageOf(WINDOW)) == Unmapped
    ensures SourceKept(a, c, root)
  {
    hide Walk;
    forall q
      ensures Walk(c.ts, root, q) == Walk(a.ts, root, q) || (IsWindow(q) && Walk(c.ts, root, q) == Unmapped)
    {
      assert q != PageOf(WINDOW) ==> Walk(b.ts, root, q) == Walk(a.ts, root, q) && Walk(c.ts, root, q) == Walk(b.ts, root, q);
    }
  }

  lemma InWindowPage(offset: nat)
    requires offset < PAGE_SIZE
    ensures PageOf(WINDOW + offset) == PageOf(WINDOW) && (WINDOW + offset) % PAGE_SIZE == offset
  {
  }

  lemma TableStays(a: Vm, b: Vm, r: Frame, p: Page)
    requires Good(a) && Extends(a, b) && IsRoot(a.place, r)
    ensures HasPt(a.ts, r, p) ==> HasPt(b.ts, r, p)
  {
    if HasPt(a.ts, r, p) {
      HasPtKept(a, b, r, p);
    }
  }

  /** A used frame that is no table does not become one. */
  lemma NewTablesWereFree(a: Vm, b: Vm)
    requires Good(a) && Good(b) && Extends(a, b)
    ensures a.used <= b.used
    ensures forall f :: f in a.used && f !in a.ts ==> f !in b.ts
    ensures forall f :: f in a.ts ==> f in b.ts
  {
  }

  /** The bytes of a frame; memory never written reads as zero. */
  function Content(data: map<Frame, Bytes>, f: Frame): Bytes {
    if f in data then data[f] else seq(4096, _ => 0)
  }

  function Splice(b: Bytes, at: nat, s: seq<byte>): Bytes
    requires at + |s| <= PAGE_SIZE
  {
    b[..at] + s + b[at + |s|..]
  }

  function PhysByte(data: map<Frame, Bytes>, a: nat): byte { Content(data, a / PAGE_SIZE)[a % PAGE_SIZE] }

  /** Every frame under [phys, phys + len) is used and is no page table; addresses have 52 bits. */
  ghost predicate OwnRange(v: Vm, phys: nat, len: nat) {
    phys + len <= 0x10_0000_0000_0000
    && forall a: nat :: phys <= a < phys + len ==> a / PAGE_SIZE in v.used && a / PAGE_SIZE !in v.ts
  }

  lemma PhysBound(v: Vm, phys: nat, len: nat, a: nat)
    requires OwnRange(v, phys, len) && phys <= a < phys + len
    ensures a < 0x10_0000_0000_0000 && FrameOf(AlignDown(a)) == a / PAGE_SIZE
    ensures a / PAGE_SIZE in v.used && a / PAGE_SIZE !in v.ts
  {
  }

  lemma PageParts(a: nat)
    ensures AlignDown(a) % PAGE_SIZE == 0 && AlignDown(a) + a % PAGE_SIZE == a
  {
  }

  lemma DownAligned(a: nat)
    ensures AlignDown(a) % PAGE_SIZE == 0 && AlignDown(a) <= a
  {
  }

  /** Outside [lo, hi) no byte differs. */
  ghost predicate SameBytes(d: map<Frame, Bytes>, e: map<Frame, Bytes>, lo: nat, hi: nat) {
    forall a: nat :: !(lo <= a < hi) ==> PhysByte(e, a) == PhysByte(d, a)
  }

  /** The bytes of `s` lie at `at`. */
  ghost predicate BytesAre(d: map<Frame, Bytes>, at: nat, s: seq<byte>) {
    forall a: nat :: at <= a < at + |s| ==> PhysByte(d, a) == s[a - at]
  }

  function Zeros(n: nat): (s: seq<byte>)
    ensures |s| == n
  {
    seq(n, _ => 0 as byte)
  }

  lemma SplicedBytes(d: map<Frame, Bytes>, d': map<Frame, Bytes>, at: nat, s: seq<byte>)
    requires at % PAGE_SIZE + |s| <= PAGE_SIZE
    requires d' == d[at / PAGE_SIZE := Splice(Content(d, at / PAGE_SIZE), at % PAGE_SIZE, s)]
    ensures BytesAre(d', at, s) && SameBytes(d, d', at, at + |s|)
  {
    var f := at / PAGE_SIZE;
    forall a: nat
      ensures PhysByte(d', a) == if at <= a < at + |s| then s[a - at] else PhysByte(d, a)
    {
      if a / PAGE_SIZE == f {
        assert a == f * PAGE_SIZE + a % PAGE_SIZE && at == f * PAGE_SIZE + at % PAGE_SIZE;
      } else {
        assert Content(d', a / PAGE_SIZE) == Content(d, a / PAGE_SIZE);
        assert !(at <= a < at + |s|);
      }
    }
  }

  lemma NothingWritten(d: map<Frame, Bytes>, at: nat, s: seq<byte>)
    ensures SameBytes(d, d, at, at) && BytesAre(d, at, s[..0])
  {
  }

  lemma SameLonger(d: map<Frame, Bytes>, e: map<Frame, Bytes>, lo: nat, hi: nat, hi': nat)
    requires SameBytes(d, e, lo, hi) && hi <= hi'
    ensures SameBytes(d, e, lo, hi')
  {
  }

  lemma OneMoreChunk(d: map<Frame, Bytes>, e: map<Frame, Bytes>, f: map<Frame, Bytes>, at: nat, s: seq<byte>, done: nat, chunk: nat)
    requires done + chunk <= |s| && SameBytes(d, e, at, at + done) && BytesAre(e, at, s[..done])
    requires SameBytes(e, f, at + done, at + done + chunk) && BytesAre(f, at + done, s[done..done + chunk])
    ensures SameBytes(d, f, at, at + done + chunk) && BytesAre(f, at, s[..done + chunk])
  {
    hide PhysByte;
  }

  predicate MappedToItself(ts: Tables, root: Frame, a: nat) {
    a < TWO64 && var m := Walk(ts, root, PageOf(a)); m.Mapped? && m.frame == a / PAGE_SIZE
  }

  /** Reading [src, src + len) at its own addresses meets one below the limit that is not mapped to itself. */
  ghost predicate Strays(ts: Tables, root: Frame, src: nat, len: nat) {
    exists a: nat :: src <= a < src + len && a < IDENTITY_MAP_LIMIT && !MappedToItself(ts, root, a)
  }

  lemma SamePage(at: U64, a: U64)
    requires at % PAGE_SIZE == 0 && at <= a < at + PAGE_SIZE
    ensures PageOf(a) == PageOf(at) && a / PAGE_SIZE == at / PAGE_SIZE && AlignDown(a) == at
  {
    var n := a / 0x1000;
    assert n == at / 0x1000;
    assert a / 0x20_0000 == n / 512 && a / 0x4000_0000 == n / 512 / 512 && a / 0x80_0000_0000 == n / 512 / 512 / 512;
    assert at / 0x20_0000 == n / 512 && at / 0x4000_0000 == n / 512 / 512 && at / 0x80_0000_0000 == n / 512 / 512 / 512;
  }

  /** Where one address of a page is mapped to itself, the others are too. */
  lemma ChunkMapped(ts: Tables, root: Frame, at: U64, n: nat)
    requires at % PAGE_SIZE + n <= PAGE_SIZE && at < IDENTITY_MAP_LIMIT && MappedToItself(ts, root, at)
    ensures !Strays(ts, root, at, n)
  {
    hide Walk, PageOf, AlignDown;
    PageParts(at);
    SamePage(AlignDown(at), at);
    forall a: nat | at <= a < at + n
      ensures MappedToItself(ts, root, a)
    {
      SamePage(AlignDown(at), a);
    }
  }

  lemma StraysOn(ts: Tables, root: Frame, src: nat, done: nat, n: nat)
    requires !Strays(ts, root, src, done) && (src + done < IDENTITY_MAP_LIMIT ==> !Strays(ts, root, src + done, n))
    ensures !Strays(ts, root, src, done + n)
  {
    hide MappedToItself;
  }

  lemma NothingStrays(ts: Tables, root: Frame, src: nat)
    ensures !Strays(ts, root, src, 0)
  {
  }

  lemma StraysHere(ts: Tables, root: Frame, src: nat, len: nat, a: nat)
    requires src <= a < src + len && a < IDENTITY_MAP_LIMIT && !MappedToItself(ts, root, a)
    ensures Strays(ts, root, src, len)
  {
  }

  lemma SelfMapped(ts: Tables, root: Frame, a: nat)
    requires MappedToItself(ts, root, a)
    ensures a < TWO64 && Walk(ts, root, PageOf(a)).Mapped? && Walk(ts, root, PageOf(a)).frame == a / PAGE_SIZE
    ensures AlignDown(a) + a % PAGE_SIZE == a
  {
  }

  lemma ChunkBytes(d: map<Frame, Bytes>, at: nat, n: nat, part: seq<byte>)
    requires at % PAGE_SIZE + n <= PAGE_SIZE
    requires part == Content(d, at / PAGE_SIZE)[at % PAGE_SIZE..at % PAGE_SIZE + n]
    ensures |part| == n && forall i :: 0 <= i < n ==> part[i] == PhysByte(d, at + i)
  {
    hide PhysByte, Content;
    forall i | 0 <= i < n
      ensures part[i] == PhysByte(d, at + i)
    {
      InsidePage(at, i);
      ByteAt(d, at + i);
    }
  }

  lemma InsidePage(at: nat, i: nat)
    requires at % PAGE_SIZE + i < PAGE_SIZE
    ensures (at + i) / PAGE_SIZE == at / PAGE_SIZE && (at + i) % PAGE_SIZE == at % PAGE_SIZE + i
  {
  }

  lemma ByteAt(d: map<Frame, Bytes>, a: nat)
    ensures PhysByte(d, a) == Content(d, a / PAGE_SIZE)[a % PAGE_SIZE]
  {
  }

  lemma GoodWithLess(v: Vm, g: Frame)
    requires Good(v) && g !in v.ts
    ensures Good(v.(used := v.used - {g}))
  {
  }

  class Machine {
    const frames: FrameBitmap
    var tables: Tables
    var data: map<Frame, Bytes>
    var pml4: Frame
    ghost var place: Places

    constructor (frames: FrameBitmap, pml4: Frame, pdpt: Frame, pd: Frame)
      requires frames.Valid() && {pml4, pdpt, pd} <= frames.used && 0 !in {pml4, pdpt, pd}
      requires pml4 != pdpt && pml4 != pd && pdpt != pd
      ensures Valid() && this.frames == frames && this.pml4 == pml4
      ensures State() == BootState(pml4, pdpt, pd, frames.used)
    {
      this.frames, this.pml4 := frames, pml4;
      tables := BootTables(pml4, pdpt, pd);
      place := map[pml4 := Root, pdpt := Pdpt(0), pd := Pd(0, 0)];
      data := map[];
      new;
      BootIsGood(pml4, pdpt, pd, frames.used);
    }

    ghost function State(): Vm
      reads this, frames
    {
      Vm(tables, place, frames.used)
    }

    ghost predicate Valid()
      reads this, frames, frames.bits
    {
      frames.Valid() && Good(State()) && IsRoot(place, pml4)
    }

    ghost predicate NoFreeTable()
      reads frames
    {
      forall f: nat :: frames.TableFrame(f) ==> f in frames.used
    }

    /** At most one frame is free that could hold a table, perhaps one that was just given back. */
    ghost predicate NearlyNoTable()
      reads frames
    {
      forall f: nat, h: nat :: frames.TableFrame(f) && frames.TableFrame(h) && f !in frames.used && h !in frames.used ==> f == h
    }

    /** Page `p` has no page table, and there is no frame for one. */
    ghost predicate Starved(p: Page)
      reads this, frames
    {
      NoFreeTable() && !HasPt(tables, pml4, p)
    }

    /** Takes a free identity-mapped frame and zeroes it; 0 when there is none. */
    method AllocTable() returns (g: Frame)
      requires Valid()
      modifies `tables, frames.bits, frames`used
      ensures frames.Valid()
      ensures g == 0 ==> frames.used == old(frames.used) && tables == old(tables) && NoFreeTable()
      ensures old(NoFreeTable()) ==> g == 0
      ensures g != 0 ==> g !in old(frames.used) && frames.used == old(frames.used) + {g}
      ensures g != 0 ==> tables == old(tables)[g := ZeroTable()]
    {
      var page := frames.AllocTable();
      g := page / PAGE_SIZE;
      if g != 0 {
        tables := tables[g := ZeroTable()];
      }
    }

    /** Gives back a page that holds no table. */
    method FreeFrame(page: nat)
      requires Valid() && page % PAGE_SIZE == 0 && page != 0 && page / PAGE_SIZE < frames.total && page / PAGE_SIZE !in tables
      modifies frames.bits, frames`used
      ensures Valid() && State() == old(State()).(used := old(frames.used) - {page / PAGE_SIZE})
      ensures old(NoFreeTable()) ==> NearlyNoTable()
    {
      hide Good, BeyondUsed;
      ghost var v := State();
      GoodWithLess(v, page / PAGE_SIZE);
      frames.FreePage(page);
      FrameStaysBelow(v.used, frames.total, page / PAGE_SIZE);
    }

    method GetOrCreateTable(table: Frame, index: Idx, flags: Flags) returns (child: Frame)
      requires Valid() && table in tables && !place[table].Pt? && LinkFlags(flags)
      modifies `tables, `place, frames.bits, frames`used
      ensures Valid() && Extends(old(State()), State()) && SameWalks(old(State()), State())
      ensures child == 0 ==> NoFreeTable() || old(IsHuge(place[table], At(tables, table, index)))
      ensures child == 0 ==> State() == old(State())
      ensures old(NoFreeTable()) && !old(IsLink(place[table], At(tables, table, index))) ==> child == 0
      ensures old(IsLink(place[table], At(tables, table, index))) ==> child != 0 && State() == old(State())
      ensures child != 0 ==> child in tables && place[child] == Child(place[table], index)
      ensures child != 0 ==> IsLink(place[table], At(tables, table, index)) && At(tables, table, index).frame == child
      ensures child != 0 ==>
        At(tables, table, index).flags == FlagsOr(old(At(tables, table, index)), flags)
      ensures child != 0 && !old(At(tables, table, index)).flags.present ==> tables[child] == ZeroTable()
      ensures child != 0 && old(At(tables, table, index)).flags.present ==> tables == old(tables)
      ensures forall f :: f in old(tables) && f != table ==> f in tables && tables[f] == old(tables)[f]
    {
      hide Good, Extends, SameWalks, KeepsOthers, Walk;
      EntryAt(State(), table, index);
      Basics(State());
      GrowsRefl(State());
      var e := tables[table][index];
      if e.flags.present {
        if e.flags.huge {
          return 0;
        }
        return e.frame;
      }
      child := AllocTable();
      if child == 0 {
        return;
      }
      ghost var b := LinkGrows(old(State()), table, index, child, flags);
      tables := Put(tables, table, index, Entry(child, flags));
      place := b.place;
    }

    method FillSplit(pt: Frame, huge: Entry)
      requires pt in tables
      modifies `tables
      ensures tables == old(tables)[pt := SplitTable(huge)]
    {
      var i := 0;
      while i < 512
        invariant 0 <= i <= 512 && pt in tables
        invariant tables == old(tables)[pt := tables[pt]]
        invariant forall j: Idx :: j < i ==> tables[pt][j] == SplitTable(huge)[j]
      {
        tables := Put(tables, pt, i, Entry(huge.frame + i, huge.flags.(huge := false)));
        i := i + 1;
      }
      assert tables[pt] == SplitTable(huge);
    }

    method SplitHugePage(pd: Frame, index: Idx) returns (ok: bool)
      requires Valid() && pd in tables && place[pd].Pd?
      modifies `tables, `place, frames.bits, frames`used
      ensures Valid() && Extends(old(State()), State()) && SameWalks(old(State()), State())
      ensures !ok ==> State() == old(State()) && NoFreeTable()
      ensures ok ==> !IsHuge(place[pd], At(tables, pd, index))
      ensures old(NoFreeTable()) || (ok && !old(IsHuge(place[pd], At(tables, pd, index)))) ==> State() == old(State())
      ensures old(NoFreeTable()) && old(IsHuge(place[pd], At(tables, pd, index))) ==> !ok
      ensures forall j: Idx :: j != index ==> At(tables, pd, j) == old(At(tables, pd, j))
      ensures ok && !old(IsHuge(place[pd], At(tables, pd, index))) ==> tables == old(tables)
      ensures ok && old(IsHuge(place[pd], At(tables, pd, index))) ==> At(tables, pd, index).flags == PRESENT_WRITABLE
      ensures forall f :: f in old(tables) && f != pd ==> f in tables && tables[f] == old(tables)[f]
    {
      hide Good, Extends, SameWalks, KeepsOthers, Walk;
      Basics(State());
      GrowsRefl(State());
      var huge := tables[pd][index];
      if !(huge.flags.present && huge.flags.huge) {
        return true;
      }
      var pt := AllocTable();
      if pt == 0 {
        return false;
      }
      ghost var b := SplitGrows(old(State()), pd, index, pt);
      FillSplit(pt, huge);
      assert tables == old(tables)[pt := SplitTable(huge)];
      assert At(old(tables), pd, index) == huge;
      tables := Put(tables, pd, index, Entry(pt, PRESENT_WRITABLE));
      place := b.place;
      return true;
    }

    /** The page directory of page `p`, created as needed. */
    method MakeDirectory(p: Page, tableFlags: Flags) returns (pd: Frame)
      requires Valid() && LinkFlags(tableFlags)
      modifies `tables, `place, frames.bits, frames`used
      ensures KeepsOthers(old(State()), State(), pml4)
      ensures Valid() && Extends(old(State()), State()) && SameWalks(old(State()), State())
      ensures pd == 0 ==> NoFreeTable() && !old(HasPd(tables, pml4, p)) && !HasPd(tables, pml4, p)
      ensures old(NoFreeTable()) && !old(HasPd(tables, pml4, p)) ==> pd == 0 && State() == old(State())
      ensures pd != 0 ==> pd in tables && place[pd] == Pd(p.i4, p.i3)
      ensures pd != 0 ==> HasPd(tables, pml4, p) && pd == PdOf(tables, pml4, p)
      ensures old(HasPd(tables, pml4, p)) ==> State() == old(State())
      ensures pd != 0 && !old(HasPd(tables, pml4, p)) ==> tables[pd] == ZeroTable()
      ensures pd != 0 ==> PdUser(tables, pml4, p) == PdUserAfter(old(tables), pml4, p, tableFlags.user)
    {
      hide Good, Extends, SameWalks, KeepsOthers, Walk;
      ghost var s0 := State();
      Basics(s0);
      EntryAt(s0, pml4, p.i4);
      var pdpt := GetOrCreateTable(pml4, p.i4, tableFlags);
      ghost var s1 := State();
      Basics(s1);
      PlaceKept(s0, s1, pml4);
      OneTable(s0, s1, pml4, pml4);
      if pdpt == 0 {
        return 0;
      }
      EntryAt(s1, pdpt, p.i3);
      PlaceKept(s0, s1, pml4);
      pd := GetOrCreateTable(pdpt, p.i3, tableFlags);
      PlaceKept(s1, State(), pml4);
      PlaceKept(s1, State(), pdpt);
      OneTable(s1, State(), pml4, pdpt);
      OthersTransitive(s0, s1, State(), pml4);
      Chain(s0, s1, State());
    }

    /** The three tables on the way to page `p`, created or split as needed. */
    method MakePath(p: Page, tableFlags: Flags) returns (pt: Frame)
      requires Valid() && LinkFlags(tableFlags)
      modifies `tables, `place, frames.bits, frames`used
      ensures KeepsOthers(old(State()), State(), pml4)
      ensures Valid() && Extends(old(State()), State()) && SameWalks(old(State()), State())
      ensures pt == 0 ==> Starved(p) && !old(HasPt(tables, pml4, p))
      ensures old(Starved(p)) ==> pt == 0 && State() == old(State())
      ensures old(HasPt(tables, pml4, p)) ==> State() == old(State())
      ensures pt != 0 ==> HasPt(tables, pml4, p) && pt == PtOf(tables, pml4, p)
      ensures pt != 0 ==> UpperUser(tables, pml4, p) == UpperUserAfter(old(tables), pml4, p, tableFlags.user)
    {
      hide Good, Extends, SameWalks, KeepsOthers, Walk;
      ghost var s0 := State();
      var pd := MakeDirectory(p, tableFlags);
      if pd == 0 {
        return 0;
      }
      ghost var s2 := State();
      Basics(s2);
      ReachPd(s2, pml4, p);
      pt := MakeTable(pd, p.i2, tableFlags);
      PlaceKept(s2, State(), pd);
      OneTable(s2, State(), pml4, pd);
      OthersTransitive(s0, s2, State(), pml4);
      Chain(s0, s2, State());
    }

    /** The page table under entry `i2` of directory `pd`, splitting a huge page there. */
    method MakeTable(pd: Frame, i2: Idx, tableFlags: Flags) returns (pt: Frame)
      requires Valid() && LinkFlags(tableFlags) && pd in tables && place[pd].Pd?
      modifies `tables, `place, frames.bits, frames`used
      ensures Valid() && Extends(old(State()), State()) && SameWalks(old(State()), State())
      ensures pt == 0 ==> NoFreeTable() && !old(IsLink(place[pd], At(tables, pd, i2))) && State() == old(State())
      ensures old(NoFreeTable()) && !old(IsLink(place[pd], At(tables, pd, i2))) ==> pt == 0
      ensures old(IsLink(place[pd], At(tables, pd, i2))) ==> State() == old(State())
      ensures pt != 0 ==> IsLink(place[pd], At(tables, pd, i2)) && At(tables, pd, i2).frame == pt && pd in place
      ensures pt != 0 ==>
        At(tables, pd, i2).flags.user == LastUserAfter(old(At(tables, pd, i2)), tableFlags.user)
      ensures forall f :: f in old(tables) && f != pd ==> f in tables && tables[f] == old(tables)[f]
    {
      hide Good, Extends, SameWalks, KeepsOthers, Walk;
      ghost var s2 := State();
      EntryAt(s2, pd, i2);
      var pdEntry := tables[pd][i2];
      if pdEntry.flags.present && pdEntry.flags.huge {
        var ok := SplitHugePage(pd, i2);
        PlaceKept(s2, State(), pd);
        if !ok {
          return 0;
        }
      } else {
        GrowsRefl(s2);
      }
      ghost var s3 := State();
      EntryAt(s3, pd, i2);
      pt := GetOrCreateTable(pd, i2, tableFlags);
      PlaceKept(s3, State(), pd);
      Chain(s2, s3, State());
    }

    /**
      Maps the page of `virt` to `phys`. On success that page has exactly the new
      translation, and no other page changes from any root, even when a huge page
      is split on the way; a failing call changes no translation at all.
     */
    method MapPageFlags(virt: U64, phys: U64, flags: Flags, tableFlags: Flags) returns (ok: bool)
      requires Valid() && LinkFlags(tableFlags)
      modifies `tables, `place, frames.bits, frames`used
      ensures KeepsOthers(old(State()), State(), pml4)
      ensures Valid() && Extends(old(State()), State())
      ensures !ok ==> SameWalks(old(State()), State())
      ensures !ok ==> virt % PAGE_SIZE != 0 || phys % PAGE_SIZE != 0 || (Starved(PageOf(virt)) && !old(HasPt(tables, pml4, PageOf(virt))))
      ensures old(Starved(PageOf(virt))) ==> !ok && State() == old(State())
      ensures virt % PAGE_SIZE != 0 || phys % PAGE_SIZE != 0 ==> !ok && State() == old(State())
      ensures ok ==> OnlyPage(old(State()), State(), PageOf(virt)) && HasPt(tables, pml4, PageOf(virt))
      ensures ok ==>
        Walk(tables, pml4, PageOf(virt)) == LeafMapping(Entry(FrameOf(phys), flags), UpperUserAfter(old(tables), pml4, PageOf(virt), tableFlags.user))
      ensures ok && old(HasPt(tables, pml4, PageOf(virt))) ==>
        State() == StoreAt(old(State()), pml4, PageOf(virt), Entry(FrameOf(phys), flags))
    {
      hide Good, Extends, SameWalks, OnlyPage, KeepsOthers, Walk;
      ghost var s0 := State();
      OthersRefl(s0);
      if virt % PAGE_SIZE != 0 || phys % PAGE_SIZE != 0 {
        GrowsRefl(s0);
        return false;
      }
      var p := PageOf(virt);
      var pt := MakePath(p, tableFlags);
      if pt == 0 {
        return false;
      }
      ghost var s1 := State();
      ghost var s2 := StoreLeaf(s1, pml4, p, Entry(FrameOf(phys), flags));
      tables := Put(tables, pt, p.i1, Entry(FrameOf(phys), flags));
      assert State() == s2;
      OnlyPageAfterSame(s0, s1, s2, p);
      PlaceKept(s0, s1, pml4);
      StoreTouches(s1, s2, pml4, p);
      OthersTransitive(s0, s1, s2, pml4);
      ExtendsTransitive(s0, s1, s2);
      return true;
    }

    method MapPage(virt: U64, phys: U64, flags: Flags) returns (ok: bool)
      requires Valid()
      modifies `tables, `place, frames.bits, frames`used
      ensures KeepsOthers(old(State()), State(), pml4)
      ensures Valid() && Extends(old(State()), State())
      ensures !ok ==> SameWalks(old(State()), State())
      ensures !ok ==> virt % PAGE_SIZE != 0 || phys % PAGE_SIZE != 0 || (Starved(PageOf(virt)) && !old(HasPt(tables, pml4, PageOf(virt))))
      ensures old(Starved(PageOf(virt))) ==> !ok && State() == old(State())
      ensures virt % PAGE_SIZE != 0 || phys % PAGE_SIZE != 0 ==> !ok && State() == old(State())
      ensures ok ==> OnlyPage(old(State()), State(), PageOf(virt)) && HasPt(tables, pml4, PageOf(virt))
      ensures ok ==>
        Walk(tables, pml4, PageOf(virt)) == LeafMapping(Entry(FrameOf(phys), flags), UpperUserAfter(old(tables), pml4, PageOf(virt), false))
      ensures ok && flags.present && !flags.user ==>
        Walk(tables, pml4, PageOf(virt)) ==
          Mapped(FrameOf(phys), flags.(huge := false), false, flags.writable, flags.nx)
    {
      hide Good, Extends, SameWalks, OnlyPage, KeepsOthers, Walk, HasPt, UpperUserAfter, LeafMapping, PageOf;
      ok := MapPageFlags(virt, phys, flags, PRESENT_WRITABLE);
      LeafFlags(phys, flags, UpperUserAfter(old(tables), pml4, PageOf(virt), false));
    }

    method MapUserPage(virt: U64, phys: U64, flags: Flags) returns (ok: bool)
      requires Valid()
      modifies `tables, `place, frames.bits, frames`used
      ensures KeepsOthers(old(State()), State(), pml4)
      ensures Valid() && Extends(old(State()), State())
      ensures !ok ==> SameWalks(old(State()), State())
      ensures !ok ==> virt % PAGE_SIZE != 0 || phys % PAGE_SIZE != 0 || (Starved(PageOf(virt)) && !old(HasPt(tables, pml4, PageOf(virt))))
      ensures old(Starved(PageOf(virt))) ==> !ok && State() == old(State())
      ensures virt % PAGE_SIZE != 0 || phys % PAGE_SIZE != 0 ==> !ok && State() == old(State())
      ensures ok ==> OnlyPage(old(State()), State(), PageOf(virt)) && HasPt(tables, pml4, PageOf(virt))
      ensures ok ==>
        Walk(tables, pml4, PageOf(virt)) ==
          LeafMapping(Entry(FrameOf(phys), flags.(user := true)), UpperUserAfter(old(tables), pml4, PageOf(virt), true))
      ensures ok && old(HasPt(tables, pml4, PageOf(virt))) ==>
        State() == StoreAt(old(State()), pml4, PageOf(virt), Entry(FrameOf(phys), flags.(user := true)))
      ensures ok && flags.present ==>
        Walk(tables, pml4, PageOf(virt)) ==
          Mapped(FrameOf(phys), flags.(user := true, huge := false),
                 OpenWay(old(tables), pml4, PageOf(virt)), flags.writable, flags.nx)
    {
      hide Good, Extends, SameWalks, OnlyPage, KeepsOthers, Walk, HasPt, UpperUserAfter, LeafMapping, PageOf, OpenWay;
      OpensIff(tables, pml4, PageOf(virt), true);
      LeafFlags(phys, flags.(user := true), UpperUserAfter(tables, pml4, PageOf(virt), true));
      ok := MapPageFlags(virt, phys, flags.(user := true), PRESENT_WRITABLE_USER);
    }

    /** Removes exactly the 4 KiB translation of `virt`; a huge page stays. */
    method UnmapPage(virt: U64)
      requires Valid()
      modifies `tables
      ensures KeepsOthers(old(State()), State(), pml4)
      ensures Valid() && Extends(old(State()), State()) && OnlyPage(old(State()), State(), PageOf(virt))
      ensures HasPt(tables, pml4, PageOf(virt)) == old(HasPt(tables, pml4, PageOf(virt)))
      ensures HasPt(tables, pml4, PageOf(virt)) ==> Walk(tables, pml4, PageOf(virt)) == Unmapped
      ensures HasPt(tables, pml4, PageOf(virt)) ==> State() == StoreAt(old(State()), pml4, PageOf(virt), ZERO)
      ensures !HasPt(tables, pml4, PageOf(virt)) ==> tables == old(tables)
    {
      hide Good, Extends, OnlyPage, KeepsOthers, Walk;
      var p := PageOf(virt);
      ghost var s0 := State();
      GrowsRefl(s0);
      OnlyPageRefl(s0, p);
      OthersRefl(s0);
      Basics(s0);
      EntryAt(s0, pml4, p.i4);
      var e4 := tables[pml4][p.i4];
      if !e4.flags.present {
        return;
      }
      EntryAt(s0, e4.frame, p.i3);
      var e3 := tables[e4.frame][p.i3];
      if !e3.flags.present {
        return;
      }
      EntryAt(s0, e3.frame, p.i2);
      var e2 := tables[e3.frame][p.i2];
      if !e2.flags.present || e2.flags.huge {
        return;
      }
      ghost var s1 := StoreLeaf(s0, pml4, p, ZERO);
      tables := Put(tables, e2.frame, p.i1, ZERO);
      assert State() == s1;
      StoreTouches(s0, s1, pml4, p);
    }

    /** The physical address behind `virt`, 0 when there is none. */
    method VirtToPhys(virt: U64) returns (phys: nat)
      requires Valid()
      ensures var m := Walk(tables, pml4, PageOf(virt));
        phys == if m.Unmapped? then 0 else m.frame * PAGE_SIZE + virt % PAGE_SIZE
    {
      hide Good, PageOf;
      var p := PageOf(virt);
      LowBits(virt);
      Basics(State());
      EntryAt(State(), pml4, p.i4);
      var e4 := tables[pml4][p.i4];
      if !e4.flags.present {
        return 0;
      }
      EntryAt(State(), e4.frame, p.i3);
      var e3 := tables[e4.frame][p.i3];
      if !e3.flags.present {
        return 0;
      }
      EntryAt(State(), e3.frame, p.i2);
      var e2 := tables[e3.frame][p.i2];
      if !e2.flags.present {
        return 0;
      }
      if e2.flags.huge {
        return e2.frame * PAGE_SIZE + virt % 0x20_0000;
      }
      EntryAt(State(), e2.frame, p.i1);
      var e1 := tables[e2.frame][p.i1];
      if !e1.flags.present {
        return 0;
      }
      return e1.frame * PAGE_SIZE + virt % PAGE_SIZE;
    }

    /** Opens the path of `virt` to user mode; its only caller has found a page table there. */
    method SetUserPath(virt: U64)
      requires Valid() && HasPt(tables, pml4, PageOf(virt))
      modifies `tables
      ensures Valid() && OpensOnly(old(State()), State())
      ensures HasPt(tables, pml4, PageOf(virt)) && UpperUser(tables, pml4, PageOf(virt))
      ensures PtOf(tables, pml4, PageOf(virt)) == old(PtOf(tables, pml4, PageOf(virt)))
      ensures forall p :: old(HasPt(tables, pml4, p)) <==> HasPt(tables, pml4, p)
    {
      hide Good, OpensOnly, Walk, HasPt, UpperUser;
      var p := PageOf(virt);
      Basics(State());
      ghost var b := OpenPath(State(), pml4, p);
      tables := Put(tables, pml4, p.i4, OpenEntry(tables[pml4][p.i4]));
      var pdpt := tables[pml4][p.i4].frame;
      tables := Put(tables, pdpt, p.i3, OpenEntry(tables[pdpt][p.i3]));
      var pd := tables[pdpt][p.i3].frame;
      tables := Put(tables, pd, p.i2, OpenEntry(tables[pd][p.i2]));
      assert State() == b;
    }

    /** The page table of `virt`, 0 when the page has none (unmapped above, or a huge page). */
    method GetPt(virt: U64) returns (pt: Frame)
      requires Valid()
      ensures pt != 0 <==> HasPt(tables, pml4, PageOf(virt))
      ensures pt != 0 ==> pt == PtOf(tables, pml4, PageOf(virt)) && pt in tables
    {
      hide Good;
      var p := PageOf(virt);
      Basics(State());
      EntryAt(State(), pml4, p.i4);
      var e4 := tables[pml4][p.i4];
      if !e4.flags.present {
        return 0;
      }
      EntryAt(State(), e4.frame, p.i3);
      var e3 := tables[e4.frame][p.i3];
      if !e3.flags.present {
        return 0;
      }
      EntryAt(State(), e3.frame, p.i2);
      var e2 := tables[e3.frame][p.i2];
      if !e2.flags.present || e2.flags.huge {
        return 0;
      }
      return e2.frame;
    }

    /**
      Gives user mode the page of the fixed image window that holds `virt`, at its
      own physical address. Other pages keep their translation; at most they become
      reachable in user mode, and only where their leaf already had the user bit.
     */
    method PromoteUserIdentity(virt: U64, flags: Flags) returns (ok: bool)
      requires Valid()
      modifies `tables
      ensures Valid()
      ensures ok ==
        (USER_IMAGE_PHYS_START <= AlignDown(virt) < USER_IMAGE_PHYS_END && old(HasPt(tables, pml4, PageOf(virt))))
      ensures !ok ==> tables == old(tables)
      ensures ok ==> HasPt(tables, pml4, PageOf(virt))
      ensures ok ==> Walk(tables, pml4, PageOf(virt)) == UserIdentity(virt, flags)
      ensures forall p :: old(HasPt(tables, pml4, p)) <==> HasPt(tables, pml4, p)
      ensures forall r, q :: IsRoot(place, r) && q != PageOf(virt) ==>
        Opened(old(Walk(tables, r, q)), Walk(tables, r, q))
    {
      hide Good, OpensOnly, OnlyPage, Walk, HasPt, UpperUser, PageOf, PtOf;
      var page := AlignDown(virt);
      ghost var s0 := State();
      if page < USER_IMAGE_PHYS_START || page >= USER_IMAGE_PHYS_END {
        return false;
      }
      var pt := GetPt(virt);
      if pt == 0 {
        return false;
      }
      SetUserPath(virt);
      ghost var s1 := State();
      var fl := flags.(user := true, writable := true);
      ghost var b := StoreLeaf(s1, pml4, PageOf(virt), Entry(FrameOf(page), fl));
      tables := Put(tables, pt, PageOf(virt).i1, Entry(FrameOf(page), fl));
      assert State() == b;
      OpensThenStore(s0, s1, b, PageOf(virt));
      forall p | HasPt(s1.ts, pml4, p)
        ensures HasPt(b.ts, pml4, p)
      {
        TableStays(s1, b, pml4, p);
      }
      LeafReach(s1, pml4, PageOf(virt), Entry(FrameOf(page), fl));
      return true;
    }

    // ----- Physical memory, through the kernel mapping window -----

    /** A copy of `s` to virtual address `virt`, within one page. */
    method StoreVirt(virt: U64, s: seq<byte>)
      requires virt % PAGE_SIZE + |s| <= PAGE_SIZE
      requires var m := Walk(tables, pml4, PageOf(virt)); m.Mapped? && m.writable && m.frame !in tables
      modifies `data
      ensures var f := Walk(tables, pml4, PageOf(virt)).frame;
        data == old(data)[f := Splice(Content(old(data), f), virt % PAGE_SIZE, s)]
    {
      ghost var f := Walk(tables, pml4, PageOf(virt)).frame;
      var phys := Walk(tables, pml4, PageOf(virt)).frame;
      data := data[phys := Splice(Content(data, phys), virt % PAGE_SIZE, s)];
    }

    /** Reads the whole page at virtual address `virt`. */
    method LoadPageVirt(virt: U64) returns (bytes: Bytes)
      requires virt % PAGE_SIZE == 0
      requires var m := Walk(tables, pml4, PageOf(virt)); m.Mapped? && m.frame !in tables
      ensures bytes == Content(data, Walk(tables, pml4, PageOf(virt)).frame)
    {
      bytes := Content(data, Walk(tables, pml4, PageOf(virt)).frame);
    }

    /** Maps the first window page to the page `page`, stores `s` at `offset` in it, and unmaps the window. */
    method StoreThroughWindow(page: U64, offset: nat, s: seq<byte>) returns (ok: bool)
      requires Valid() && page % PAGE_SIZE == 0 && offset < PAGE_SIZE && offset + |s| <= PAGE_SIZE
      requires FrameOf(page) in frames.used && FrameOf(page) !in tables
      modifies `tables, `place, `data, frames.bits, frames`used
      ensures KeepsOthers(old(State()), State(), pml4)
      ensures Valid() && Extends(old(State()), State()) && OnlyWindow(old(State()), State())
      ensures SourceKept(old(State()), State(), pml4)
      ensures !ok ==> data == old(data) && Starved(PageOf(WINDOW))
      ensures old(HasPt(tables, pml4, PageOf(WINDOW))) ==> ok
      ensures old(Starved(PageOf(WINDOW))) ==> !ok && State() == old(State())
      ensures ok ==> HasPt(tables, pml4, PageOf(WINDOW))
      ensures ok ==>
        data == old(data)[FrameOf(page) := Splice(Content(old(data), FrameOf(page)), offset, s)]
    {
      hide Good, Extends, SameWalks, OnlyPage, OnlyWindow, SourceKept, KeepsOthers, Walk, HasPt, UpperUserAfter, FrameOf, StoreAt, PageOf;
      ghost var s0 := State();
      ok := MapPage(WINDOW, page, PRESENT_WRITABLE);
      ghost var s1 := State();
      NewTablesWereFree(s0, s1);
      if !ok {
        SameIsOnlyWindow(s0, s1);
        SameIsKept(s0, s1, pml4);
        return;
      }
      InWindowPage(offset);
      StoreVirt(WINDOW + offset, s);
      UnmapPage(WINDOW);
      WindowUsed(s0, s1, State(), pml4);
    }

    /** Stores `s` at physical address `at`, within one page, in a run of stores that began in state `s0`. */
    method StoreChunk(at: U64, s: seq<byte>, ghost s0: Vm) returns (ok: bool)
      requires Valid() && s != [] && at < 0x10_0000_0000_0000 && at % PAGE_SIZE + |s| <= PAGE_SIZE
      requires Good(s0) && Extends(s0, State()) && OnlyWindow(s0, State()) && SourceKept(s0, State(), pml4) && IsRoot(s0.place, pml4)
      requires FrameOf(AlignDown(at)) == at / PAGE_SIZE && at / PAGE_SIZE in s0.used && at / PAGE_SIZE !in s0.ts
      modifies `tables, `place, `data, frames.bits, frames`used
      ensures Valid() && Extends(s0, State()) && OnlyWindow(s0, State()) && SourceKept(s0, State(), pml4)
      ensures ok ==> SameBytes(old(data), data, at, at + |s|) && BytesAre(data, at, s) && HasPt(tables, pml4, PageOf(WINDOW))
      ensures !ok ==> data == old(data) && Starved(PageOf(WINDOW))
      ensures old(HasPt(tables, pml4, PageOf(WINDOW))) ==> ok
      ensures old(Starved(PageOf(WINDOW))) ==> !ok && State() == old(State())
    {
      hide Good, Extends, OnlyWindow, SourceKept, Walk, FrameOf, SameBytes, BytesAre, HasPt, PageOf, KeepsOthers, AlignDown;
      ghost var s1, d1 := State(), data;
      NewTablesWereFree(s0, s1);
      DownAligned(at);
      ok := StoreThroughWindow(AlignDown(at), at % PAGE_SIZE, s);
      ChainWindow(s0, s1, State());
      SourceKeptChain(s0, s1, State(), pml4);
      if ok {
        SplicedBytes(d1, data, at, s);
      }
    }

    /** Copies `src` to physical memory at `phys`, page by page. */
    method WritePhys(phys: U64, src: seq<byte>) returns (ok: bool)
      requires Valid() && OwnRange(State(), phys, |src|)
      modifies `tables, `place, `data, frames.bits, frames`used
      ensures Valid() && Extends(old(State()), State()) && OnlyWindow(old(State()), State())
      ensures SourceKept(old(State()), State(), pml4)
      ensures src == [] ==> ok && State() == old(State())
      ensures SameBytes(old(data), data, phys, phys + |src|) && (ok ==> BytesAre(data, phys, src))
      ensures old(HasPt(tables, pml4, PageOf(WINDOW))) ==> ok && HasPt(tables, pml4, PageOf(WINDOW))
      ensures src != [] ==> if ok then HasPt(tables, pml4, PageOf(WINDOW)) else Starved(PageOf(WINDOW))
      ensures src != [] && old(Starved(PageOf(WINDOW))) ==> !ok && State() == old(State()) && data == old(data)
    {
      hide Good, Extends, OnlyWindow, SourceKept, Walk, FrameOf, SameBytes, BytesAre, OwnRange, HasPt, PageOf;
      ghost var s0, d0 := State(), data;
      GrowsRefl(s0);
      SameIsOnlyWindow(s0, s0);
      SourceKeptSame(s0, s0, pml4);
      NothingWritten(d0, phys, src);
      var done := 0;
      while done < |src|
        invariant 0 <= done <= |src|
        invariant Valid() && Extends(s0, State()) && OnlyWindow(s0, State()) && SourceKept(s0, State(), pml4)
        invariant done > 0 ==> HasPt(tables, pml4, PageOf(WINDOW)) && !old(Starved(PageOf(WINDOW)))
        invariant done == 0 ==> State() == s0 && data == d0
        invariant SameBytes(d0, data, phys, phys + done) && BytesAre(data, phys, src[..done])
      {
        var at := phys + done;
        PhysBound(s0, phys, |src|, at);
        var chunk := if PAGE_SIZE - at % PAGE_SIZE > |src| - done then |src| - done else PAGE_SIZE - at % PAGE_SIZE;
        ghost var d1 := data;
        ok := StoreChunk(at, src[done..done + chunk], s0);
        if !ok {
          SameLonger(d0, d1, phys, phys + done, phys + |src|);
          return;
        }
        OneMoreChunk(d0, d1, data, phys, src, done, chunk);
        done := done + chunk;
      }
      assert src[..done] == src;
      return true;
    }

    /** Zeroes `len` bytes of physical memory at `phys`, page by page. */
    method ClearPhys(phys: U64, len: nat) returns (ok: bool)
      requires Valid() && OwnRange(State(), phys, len)
      modifies `tables, `place, `data, frames.bits, frames`used
      ensures Valid() && Extends(old(State()), State()) && OnlyWindow(old(State()), State())
      ensures SourceKept(old(State()), State(), pml4)
      ensures len == 0 ==> ok && State() == old(State())
      ensures SameBytes(old(data), data, phys, phys + len) && (ok ==> BytesAre(data, phys, Zeros(len)))
      ensures old(HasPt(tables, pml4, PageOf(WINDOW))) ==> ok && HasPt(tables, pml4, PageOf(WINDOW))
      ensures len > 0 ==> if ok then HasPt(tables, pml4, PageOf(WINDOW)) else Starved(PageOf(WINDOW)) && data == old(data)
      ensures len > 0 && old(Starved(PageOf(WINDOW))) ==> !ok && State() == old(State())
    {
      hide Good, Extends, OnlyWindow, SourceKept, Walk, FrameOf, SameBytes, BytesAre, OwnRange, HasPt, PageOf;
      ghost var s0, d0, zeros := State(), data, Zeros(len);
      GrowsRefl(s0);
      SameIsOnlyWindow(s0, s0);
      SourceKeptSame(s0, s0, pml4);
      NothingWritten(d0, phys, zeros);
      var done := 0;
      while done < len
        invariant 0 <= done <= len
        invariant Valid() && Extends(s0, State()) && OnlyWindow(s0, State()) && SourceKept(s0, State(), pml4)
        invariant done > 0 ==> HasPt(tables, pml4, PageOf(WINDOW)) && !old(Starved(PageOf(WINDOW)))
        invariant done == 0 ==> State() == s0 && data == d0
        invariant SameBytes(d0, data, phys, phys + done) && BytesAre(data, phys, zeros[..done])
      {
        var at := phys + done;
        PhysBound(s0, phys, len, at);
        var chunk := if PAGE_SIZE - at % PAGE_SIZE > len - done then len - done else PAGE_SIZE - at % PAGE_SIZE;
        ghost var d1 := data;
        ok := StoreChunk(at, Zeros(chunk), s0);
        if !ok {
          SameLonger(d0, d1, phys, phys + done, phys + len);
          return;
        }
        assert Zeros(chunk) == zeros[done..done + chunk];
        OneMoreChunk(d0, d1, data, phys, zeros, done, chunk);
        done := done + chunk;
      }
      assert zeros[..done] == zeros;
      return true;
    }

    /** Reads `n` bytes at virtual address `virt`, within one page. */
    method LoadVirt(virt: U64, n: nat) returns (bytes: seq<byte>)
      requires virt % PAGE_SIZE + n <= PAGE_SIZE
      requires var m := Walk(tables, pml4, PageOf(virt)); m.Mapped? && m.frame !in tables
      ensures bytes == Content(data, Walk(tables, pml4, PageOf(virt)).frame)[virt % PAGE_SIZE..virt % PAGE_SIZE + n]
    {
      bytes := Content(data, Walk(tables, pml4, PageOf(virt)).frame)[virt % PAGE_SIZE..virt % PAGE_SIZE + n];
    }

    /** Maps the first window page to the page `page`, reads `n` bytes at `offset` in it, and unmaps the window. */
    method LoadThroughWindow(page: U64, offset: nat, n: nat) returns (ok: bool, bytes: seq<byte>)
      requires Valid() && page % PAGE_SIZE == 0 && offset + n <= PAGE_SIZE && offset < PAGE_SIZE
      requires FrameOf(page) in frames.used && FrameOf(page) !in tables
      modifies `tables, `place, frames.bits, frames`used
      ensures Valid() && Extends(old(State()), State()) && OnlyWindow(old(State()), State())
      ensures old(HasPt(tables, pml4, PageOf(WINDOW))) ==> ok
      ensures !ok ==> Starved(PageOf(WINDOW))
      ensures ok ==> bytes == Content(data, FrameOf(page))[offset..offset + n]
    {
      hide Good, Extends, SameWalks, OnlyPage, OnlyWindow, SourceKept, KeepsOthers, Walk, HasPt, UpperUserAfter, FrameOf, StoreAt, PageOf;
      ghost var s0 := State();
      bytes := [];
      ok := MapPage(WINDOW, page, PRESENT_WRITABLE);
      ghost var s1 := State();
      NewTablesWereFree(s0, s1);
      if !ok {
        SameIsOnlyWindow(s0, s1);
        return;
      }
      InWindowPage(offset);
      bytes := LoadVirt(WINDOW + offset, n);
      UnmapPage(WINDOW);
      WindowUsed(s0, s1, State(), pml4);
    }

    /** Reads `n` bytes at physical address `at`, within one page; `astray` when the address is to be read directly but is not mapped to itself. */
    method LoadChunk(at: U64, n: nat) returns (ok: bool, astray: bool, part: seq<byte>)
      requires Valid() && at % PAGE_SIZE + n <= PAGE_SIZE && at < 0x10_0000_0000_0000
      requires FrameOf(AlignDown(at)) == at / PAGE_SIZE && at / PAGE_SIZE in frames.used && at / PAGE_SIZE !in tables
      modifies `tables, `place, frames.bits, frames`used
      ensures Valid() && Extends(old(State()), State()) && OnlyWindow(old(State()), State())
      ensures at < IDENTITY_MAP_LIMIT ==> State() == old(State())
      ensures astray <==> at < IDENTITY_MAP_LIMIT && !old(MappedToItself(tables, pml4, at))
      ensures astray ==> !ok
      ensures !astray && (at < IDENTITY_MAP_LIMIT || old(HasPt(tables, pml4, PageOf(WINDOW)))) ==> ok
      ensures !ok && !astray ==> Starved(PageOf(WINDOW))
      ensures ok ==> |part| == n && forall i :: 0 <= i < n ==> part[i] == PhysByte(data, at + i)
    {
      hide Good, Extends, OnlyWindow, Walk, FrameOf, PhysByte, HasPt, PageOf, MappedToItself, Content, AlignDown;
      var page, offset := AlignDown(at), at % PAGE_SIZE;
      PageParts(at);
      part, astray := [], false;
      if page + offset < IDENTITY_MAP_LIMIT {
        GrowsRefl(State());
        SameIsOnlyWindow(State(), State());
        if !MappedToItself(tables, pml4, at) {
          return false, true, [];
        }
        SelfMapped(tables, pml4, at);
        part := LoadVirt(page + offset, n);
        ok := true;
      } else {
        ok, part := LoadThroughWindow(page, offset, n);
        if !ok {
          return;
        }
      }
      ChunkBytes(data, at, n, part);
    }

    /**
      Copies `len` bytes of physical memory at `src`: below the identity map limit at
      their own addresses, and through the window above it. `astray` tells exactly of an address
      below the limit that is not mapped to itself: the code then faults or reads other
      bytes, and the model follows it no further.
     */
    method CopyFromPhys(src: U64, len: nat) returns (ok: bool, astray: bool, bytes: seq<byte>)
      requires Valid() && OwnRange(State(), src, len)
      modifies `tables, `place, frames.bits, frames`used
      ensures Valid() && Extends(old(State()), State()) && OnlyWindow(old(State()), State())
      ensures ok ==> |bytes| == len && forall i :: 0 <= i < len ==> bytes[i] == PhysByte(data, src + i)
      ensures astray <==> Strays(old(tables), pml4, src, len)
      ensures astray ==> !ok
      ensures old(HasPt(tables, pml4, PageOf(WINDOW))) ==> ok || astray
      ensures !ok && !astray ==> Starved(PageOf(WINDOW))
    {
      hide Good, Extends, OnlyWindow, Walk, FrameOf, PhysByte, OwnRange, HasPt, PageOf, MappedToItself, Strays;
      ghost var s0 := State();
      GrowsRefl(s0);
      SameIsOnlyWindow(s0, s0);
      bytes, astray := [], false;
      NothingStrays(s0.ts, pml4, src);
      while |bytes| < len
        invariant !Strays(s0.ts, pml4, src, |bytes|)
        invariant |bytes| <= len && (src + |bytes| < IDENTITY_MAP_LIMIT ==> State() == s0)
        invariant Valid() && Extends(s0, State()) && OnlyWindow(s0, State())
        invariant HasPt(s0.ts, pml4, PageOf(WINDOW)) ==> HasPt(tables, pml4, PageOf(WINDOW))
        invariant forall i :: 0 <= i < |bytes| ==> bytes[i] == PhysByte(data, src + i)
        decreases len - |bytes|
      {
        var at := src + |bytes|;
        PhysBound(s0, src, len, at);
        var room := PAGE_SIZE - at % PAGE_SIZE;
        var chunk := if room > len - |bytes| then len - |bytes| else room;
        ghost var s1 := State();
        NewTablesWereFree(s0, s1);
        var part;
        ok, astray, part := LoadChunk(at, chunk);
        ChainWindow(s0, s1, State());
        TableStays(s1, State(), pml4, PageOf(WINDOW));
        if astray {
          StraysHere(s0.ts, pml4, src, len, at);
          return;
        }
        if at < IDENTITY_MAP_LIMIT {
          ChunkMapped(s0.ts, pml4, at, chunk);
        }
        StraysOn(s0.ts, pml4, src, |bytes|, if ok then chunk else len - |bytes|);
        if !ok {
          return;
        }
        bytes := bytes + part;
      }
      return true, false, bytes;
    }
  }

  /** Without a free frame there is none for a table. */
  lemma NothingFree(m: Machine)
    requires forall f: nat :: f < m.frames.total ==> f in m.frames.used
    ensures m.NoFreeTable() && m.NearlyNoTable()
  {
  }
}
