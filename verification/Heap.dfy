/**
  The kernel heap: a first-fit allocator over a linked list of block headers,
  in memory that is mapped page by page as the heap grows.
 */
module Heap {
  import opened Frames
  import opened PageTables
  import opened Paging
  import opened HeapSpec
  import opened HeapList
  import Boot

  /** A page of the mapped part of the heap. */
  predicate HeapPage(q: Page, mappedEnd: nat) { HEAP_START / PAGE_SIZE <= Num(q) < mappedEnd / PAGE_SIZE }

  /** Every mapped heap page is a kernel page in a used frame of its own that holds no table. */
  ghost predicate HeapMapped(v: Vm, root: Frame, mappedEnd: nat) {
    && (forall q :: HeapPage(q, mappedEnd) ==> OwnPage(v, Walk(v.ts, root, q)))
    && (forall p, q :: HeapPage(p, mappedEnd) && HeapPage(q, mappedEnd) && p != q ==>
          FrameOfWalk(v.ts, root, p) != FrameOfWalk(v.ts, root, q))
  }

  predicate OwnPage(v: Vm, w: Mapping) {
    w.Mapped? && w.flags == PRESENT_WRITABLE && w.writable && !w.user && w.frame in v.used && w.frame !in v.ts
  }

  function FrameOfWalk(ts: Tables, root: Frame, q: Page): Frame {
    var w := Walk(ts, root, q);
    if w.Mapped? then w.frame else 0
  }

  /** Where one heap page stands after the next one has been mapped to frame `g`. */
  lemma HeapPageStep(a: Vm, b: Vm, c: Vm, root: Frame, mappedEnd: nat, g: Frame, q: Page)
    requires Good(a) && Good(b) && IsRoot(a.place, root) && g !in a.used && HeapMapped(a, root, mappedEnd)
    requires b == a.(used := a.used + {g})
    requires HEAP_START <= mappedEnd < HEAP_LIMIT && mappedEnd % PAGE_SIZE == 0
    requires Extends(b, c) && Good(c) && OnlyPage(b, c, PageOf(mappedEnd))
    requires Walk(c.ts, root, PageOf(mappedEnd)) == Mapped(g, PRESENT_WRITABLE, false, true, false)
    requires HeapPage(q, mappedEnd + PAGE_SIZE)
    ensures OwnPage(c, Walk(c.ts, root, q))
    ensures if HeapPage(q, mappedEnd) then Walk(c.ts, root, q) == Walk(a.ts, root, q) && FrameOfWalk(c.ts, root, q) in a.used
            else q == PageOf(mappedEnd) && FrameOfWalk(c.ts, root, q) == g
  {
    hide Good, Extends, Walk, PageOf;
    NewTablesWereFree(b, c);
    Basics(a);
    Boot.NumOfAddress(mappedEnd);
    if Num(q) == mappedEnd / PAGE_SIZE {
      Boot.NumIsInjective(q, PageOf(mappedEnd));
    } else {
      assert HeapPage(q, mappedEnd) && OwnPage(a, Walk(a.ts, root, q));
      assert IsRoot(b.place, root) && q != PageOf(mappedEnd);
    }
  }

  lemma HeapPageMapped(a: Vm, b: Vm, c: Vm, root: Frame, mappedEnd: nat, g: Frame)
    requires Good(a) && Good(b) && IsRoot(a.place, root) && g !in a.used && HeapMapped(a, root, mappedEnd)
    requires b == a.(used := a.used + {g})
    requires HEAP_START <= mappedEnd < HEAP_LIMIT && mappedEnd % PAGE_SIZE == 0
    requires Extends(b, c) && Good(c) && OnlyPage(b, c, PageOf(mappedEnd))
    requires Walk(c.ts, root, PageOf(mappedEnd)) == Mapped(g, PRESENT_WRITABLE, false, true, false)
    ensures HeapMapped(c, root, mappedEnd + PAGE_SIZE)
  {
    hide Good, Extends, Walk, PageOf, OnlyPage, OwnPage, HeapPage, FrameOfWalk;
    forall q | HeapPage(q, mappedEnd + PAGE_SIZE)
      ensures OwnPage(c, Walk(c.ts, root, q))
    {
      HeapPageStep(a, b, c, root, mappedEnd, g, q);
    }
    forall p, q | HeapPage(p, mappedEnd + PAGE_SIZE) && HeapPage(q, mappedEnd + PAGE_SIZE) && p != q
      ensures FrameOfWalk(c.ts, root, p) != FrameOfWalk(c.ts, root, q)
    {
      HeapPageStep(a, b, c, root, mappedEnd, g, p);
      HeapPageStep(a, b, c, root, mappedEnd, g, q);
      SameFrameOfWalk(a, c, root, p);
      SameFrameOfWalk(a, c, root, q);
    }
  }

  lemma SameFrameOfWalk(a: Vm, c: Vm, root: Frame, q: Page)
    ensures Walk(c.ts, root, q) == Walk(a.ts, root, q) ==> FrameOfWalk(c.ts, root, q) == FrameOfWalk(a.ts, root, q)
  {
  }

  lemma MoreUsed(a: Vm, g: Frame)
    requires Good(a)
    ensures Good(a.(used := a.used + {g}))
  {
  }

  lemma PageFrame(total: nat, page: nat)
    requires total <= MAX_FRAMES && page % PAGE_SIZE == 0 && page / PAGE_SIZE < total
    ensures page < TWO64 && FrameOf(page) == page / PAGE_SIZE
  {
  }

  /** A page that could not be mapped goes back: the heap keeps what it had. */
  lemma GiveBackPage(a: Vm, b: Vm, c: Vm, d: Vm, root: Frame, mappedEnd: nat, g: Frame)
    requires Good(a) && Good(b) && Good(c) && IsRoot(a.place, root) && g !in a.used && HeapMapped(a, root, mappedEnd)
    requires b == a.(used := a.used + {g}) && Extends(b, c) && SameWalks(b, c) && d == c.(used := c.used - {g})
    ensures Good(d) && HeapMapped(d, root, mappedEnd)
  {
    NewTablesWereFree(b, c);
    Basics(a);
    GoodWithLess(c, g);
    hide Good, Extends, Walk;
    PagesStay(a, d, root, mappedEnd);
  }

  lemma PagesStay(a: Vm, d: Vm, root: Frame, mappedEnd: nat)
    requires HeapMapped(a, root, mappedEnd) && forall q :: Walk(d.ts, root, q) == Walk(a.ts, root, q)
    requires forall f :: f in a.used && f !in a.ts ==> f in d.used && f !in d.ts
    ensures HeapMapped(d, root, mappedEnd)
  {
    hide Walk;
    forall q | HeapPage(q, mappedEnd)
      ensures OwnPage(d, Walk(d.ts, root, q)) && FrameOfWalk(d.ts, root, q) == FrameOfWalk(a.ts, root, q)
    {
      assert OwnPage(a, Walk(a.ts, root, q));
    }
  }

  /** Every address in `ws` is that of a block header in `bs` or in `cs`. */
  ghost predicate AreBlocks(ws: set<nat>, bs: seq<Block>, cs: seq<Block>) {
    forall a :: a in ws ==> IsBlock(bs, a) || IsBlock(cs, a)
  }

  ghost predicate AreOldBlocks(ws: set<nat>, bs: seq<Block>) {
    forall a :: a in ws ==> IsBlock(bs, a)
  }

  ghost predicate IsBlock(bs: seq<Block>, a: nat) {
    exists k :: 0 <= k < |bs| && Off(bs, k) == a
  }

  lemma SplitPlaces(bs: seq<Block>, i: nat, size: nat)
    requires i < |bs| && size + HEADER <= bs[i].size
    ensures IsBlock(bs, Off(bs, i)) && (i + 1 < |bs| ==> IsBlock(bs, Off(bs, i + 1)))
    ensures IsBlock(Cut(bs, i, size), Off(bs, i) + HEADER + size)
  {
    CutOff(bs, i, size, i);
  }

  lemma JoinPlaces(bs: seq<Block>, i: nat)
    requires i + 1 < |bs|
    ensures IsBlock(bs, Off(bs, i)) && IsBlock(bs, Off(bs, i + 1)) && (i + 2 < |bs| ==> IsBlock(bs, Off(bs, i + 2)))
  {
  }

  /** The headers of a joined list are headers of the list it came from. */
  lemma JoinIsOld(bs: seq<Block>, i: nat, ws: set<nat>)
    requires i + 1 < |bs| && AreBlocks(ws, bs, Join(bs, i))
    ensures AreOldBlocks(ws, bs)
  {
    forall a | IsBlock(Join(bs, i), a)
      ensures IsBlock(bs, a)
    {
      var k :| 0 <= k < |Join(bs, i)| && Off(Join(bs, i), k) == a;
      JoinOff(bs, i, k);
    }
  }

  lemma OldThroughJoin(bs: seq<Block>, n: seq<Block>, i: nat, ws: set<nat>)
    requires i < |bs| && n == JoinNext(bs, i) && AreOldBlocks(ws, n)
    ensures AreOldBlocks(ws, bs)
  {
    if n != bs {
      JoinIsOld(bs, i, ws);
    }
  }

  /** No 64-bit sum of the request wraps around. */
  predicate NoWrap(size: nat) { size <= MAX_REQUEST && Expansion(size) + HEAP_LIMIT < TWO64 }

  function AddressOr0(bs: seq<Block>, i: nat): nat
    requires i <= |bs|
  {
    if i < |bs| then Off(bs, i) else 0
  }

  lemma AddressNot0(bs: seq<Block>, i: nat)
    requires i <= |bs| && AddressOr0(bs, i) != 0
    ensures i < |bs|
  {
  }

  lemma HeadIsFirst(bs: seq<Block>)
    ensures HeadOf(bs) == AddressOr0(bs, 0) && Off(bs, 0) == HEAP_START
  {
  }

  lemma FitIsFirst(bs: seq<Block>, size: nat, i: nat)
    requires i < |bs| && Fits(bs[i], size) && forall k :: 0 <= k < i ==> !Fits(bs[k], size)
    ensures FirstFit(bs, size, 0) == i
  {
  }

  lemma NoFit(bs: seq<Block>, size: nat, i: nat)
    requires i <= |bs| && AddressOr0(bs, i) == 0 && forall k :: 0 <= k < i ==> !Fits(bs[k], size)
    ensures FirstFit(bs, size, 0) == |bs|
  {
    OffPositive(bs, i);
  }

  lemma TakeIsCut(bs: seq<Block>, i: nat, size: nat)
    requires i < |bs| && size <= bs[i].size
    ensures Take(bs, i, size) ==
      if bs[i].size < size + HEADER + HEAP_ALIGN then SetFlag(bs, i, false) else Cut(SetFlag(bs, i, false), i, size)
  {
  }

  lemma GrowIsCut(bs: seq<Block>, expand: nat, size: nat)
    requires size + HEADER <= expand
    ensures var all := bs + [Block(expand - HEADER, false)];
      Grow(bs, expand, size) == if expand - HEADER < size + HEADER + HEAP_ALIGN then all else Cut(all, |bs|, size)
  {
  }

  lemma AppendPlaces(bs: seq<Block>, b: Block)
    ensures IsBlock(bs + [b], End(bs)) && (bs != [] ==> IsBlock(bs, Off(bs, |bs| - 1)))
  {
    OffPrefix(bs, bs + [b], |bs|);
  }

  /** No header stored at an address of `ws` overlaps a payload of `live`. */
  ghost predicate Misses(ws: set<nat>, live: set<(nat, nat)>) {
    forall a, e :: a in ws && e in live ==> a + HEADER <= e.0 || e.0 + e.1 <= a
  }

  lemma NoWrites(live: set<(nat, nat)>)
    ensures Misses({}, live)
  {
  }

  lemma TakeHead(bs: seq<Block>, i: nat, size: nat)
    requires i < |bs| && size <= bs[i].size
    ensures HeadOf(Take(bs, i, size)) == HeadOf(bs)
  {
  }

  /** Appending and splitting the new block yields `Grow`, with its invariant, extent and stores. */
  lemma GrowFacts(bs: seq<Block>, expand: nat, size: nat, w: set<nat>, ws: set<nat>)
    requires Inv(bs) && size + HEADER <= expand && size >= HEAP_ALIGN && size % HEAP_ALIGN == 0 && expand % PAGE_SIZE == 0
    requires AreBlocks(w, bs, bs + [Block(expand - HEADER, false)])
    requires var all := bs + [Block(expand - HEADER, false)];
      AreBlocks(ws - w, all, if expand - HEADER < size + HEADER + HEAP_ALIGN then all else Cut(all, |bs|, size))
    ensures var all := bs + [Block(expand - HEADER, false)];
      Grow(bs, expand, size) == if expand - HEADER < size + HEADER + HEAP_ALIGN then all else Cut(all, |bs|, size)
    ensures Inv(Grow(bs, expand, size)) && End(Grow(bs, expand, size)) == End(bs) + expand
    ensures HeadOf(Grow(bs, expand, size)) == HeadOf(bs + [Block(expand - HEADER, false)])
    ensures Misses(ws, Live(bs))
  {
    hide Off, Live, Inv, Grow, Cut, HeadOf, Misses, IsBlock, AreBlocks, GrowStores;
    GrowIsCut(bs, expand, size);
    GrowLive(bs, expand, size);
    PageAligned(expand);
    GrowInv(bs, expand, size);
    GrowHead(bs, expand, size);
    BothStores(bs, bs + [Block(expand - HEADER, false)], Grow(bs, expand, size), w, ws);
    GrowWrites(bs, expand, size, ws);
  }

  /** Every store is at a header of the list before, the list with the block appended, or the list after. */
  ghost predicate GrowStores(bs: seq<Block>, all: seq<Block>, after: seq<Block>, ws: set<nat>) {
    forall a :: a in ws ==> IsBlock(bs, a) || IsBlock(all, a) || IsBlock(after, a)
  }

  lemma BothStores(bs: seq<Block>, all: seq<Block>, after: seq<Block>, w: set<nat>, ws: set<nat>)
    requires AreBlocks(w, bs, all) && AreBlocks(ws - w, all, after)
    ensures GrowStores(bs, all, after, ws)
  {
    hide IsBlock;
    forall a | a in ws
      ensures IsBlock(bs, a) || IsBlock(all, a) || IsBlock(after, a)
    {
      assert a in w || a in ws - w;
    }
  }

  lemma GrowHead(bs: seq<Block>, expand: nat, size: nat)
    requires size + HEADER <= expand
    ensures HeadOf(Grow(bs, expand, size)) == HeadOf(bs + [Block(expand - HEADER, false)])
  {
  }

  /** A header of the list does not meet a live payload of the same list. */
  lemma HeaderMissesPayload(bs: seq<Block>, a: nat, e: (nat, nat))
    requires IsBlock(bs, a) && e in Live(bs)
    ensures a + HEADER <= e.0 || e.0 + e.1 <= a
  {
    var k :| 0 <= k < |bs| && Off(bs, k) == a;
    var j := LiveHasIndex(bs, HEAP_START, e);
    OffIsExtent(bs, j);
    BlocksApart(bs, k, j);
  }

  lemma WritesMissPayloads(bs: seq<Block>, cs: seq<Block>, ws: set<nat>, live: set<(nat, nat)>)
    requires AreBlocks(ws, bs, cs) && live <= Live(bs) && live <= Live(cs)
    ensures Misses(ws, live)
  {
    forall a, e | a in ws && e in live
      ensures a + HEADER <= e.0 || e.0 + e.1 <= a
    {
      if IsBlock(bs, a) {
        HeaderMissesPayload(bs, a, e);
      } else {
        HeaderMissesPayload(cs, a, e);
      }
    }
  }

  lemma FlagPlaces(bs: seq<Block>, i: nat, free: bool)
    requires i < |bs|
    ensures forall a :: IsBlock(SetFlag(bs, i, free), a) ==> IsBlock(bs, a)
    ensures IsBlock(bs, Off(bs, i))
  {
    var cs := SetFlag(bs, i, free);
    forall a | IsBlock(cs, a)
      ensures IsBlock(bs, a)
    {
      var k :| 0 <= k < |cs| && Off(cs, k) == a;
      SameSizes(bs, cs, k);
    }
  }

  lemma TakeWrites(bs: seq<Block>, i: nat, size: nat, ws: set<nat>)
    requires i < |bs| && Fits(bs[i], size)
    requires AreBlocks(ws - {Off(bs, i)}, SetFlag(bs, i, false), Take(bs, i, size))
    ensures Misses(ws, Live(bs))
  {
    FlagPlaces(bs, i, false);
    TakeLive(bs, i, size);
    WritesMissPayloads(bs, Take(bs, i, size), ws, Live(bs));
  }

  lemma GrowWrites(bs: seq<Block>, expand: nat, size: nat, ws: set<nat>)
    requires size + HEADER <= expand
    requires GrowStores(bs, bs + [Block(expand - HEADER, false)], Grow(bs, expand, size), ws)
    ensures Misses(ws, Live(bs))
  {
    GrowLive(bs, expand, size);
    GrowIsCut(bs, expand, size);
    var all := bs + [Block(expand - HEADER, false)];
    forall a | IsBlock(all, a)
      ensures IsBlock(Grow(bs, expand, size), a)
    {
      var k :| 0 <= k < |all| && Off(all, k) == a;
      if Grow(bs, expand, size) != all { CutOff(all, |bs|, size, k); }
    }
    WritesMissPayloads(bs, Grow(bs, expand, size), ws, Live(bs));
  }

  lemma FreeWrites(bs: seq<Block>, i: nat, ws: set<nat>)
    requires i < |bs| && !bs[i].free
    requires AreOldBlocks(ws - {Off(bs, i)}, SetFlag(bs, i, true))
    ensures Misses(ws, Live(Release(bs, i)))
  {
    FlagPlaces(bs, i, true);
    ReleaseLive(bs, i);
    WritesMissPayloads(bs, bs, ws, Live(Release(bs, i)));
  }

  lemma HeadKept(bs: seq<Block>, i: nat)
    requires i < |bs|
    ensures HeadOf(Release(bs, i)) == HeadOf(bs)
  {
  }

  lemma NoPages(v: Vm, root: Frame)
    ensures HeapMapped(v, root, HEAP_START)
  {
  }

  /** The empty list, and the list of the first block. */
  lemma FirstBlock()
    ensures var bs := [Block(HEAP_MIN_EXPAND - HEADER, true)];
      Linked(map[HEAP_START := Header(HEAP_MIN_EXPAND - HEADER, true, 0, 0)], bs) && Inv(bs)
      && End(bs) == HEAP_START + HEAP_MIN_EXPAND && HeadOf(bs) == HEAP_START
    ensures Linked(map[], []) && Inv([]) && End([]) == HEAP_START && HeadOf([]) == 0
  {
    assert Off([Block(HEAP_MIN_EXPAND - HEADER, true)], 1) == HEAP_START + HEAP_MIN_EXPAND;
  }

  lemma PageSum(a: nat, b: nat)
    requires a % PAGE_SIZE == 0 && b % PAGE_SIZE == 0
    ensures (a + b) % PAGE_SIZE == 0
  {
  }

  /** Between page-aligned addresses there is room for a page. */
  lemma PageRoom(a: nat, b: nat)
    requires a % PAGE_SIZE == 0 && b % PAGE_SIZE == 0 && a < b
    ensures a + PAGE_SIZE <= b
  {
  }

  class Heap {
    const machine: Machine
    var headers: map<nat, Header>
    var head: nat
    var current: nat
    var mappedEnd: nat
    ghost var blocks: seq<Block>
    ghost var writes: set<nat>

    /** `heap_init`: one free block of HEAP_MIN_EXPAND bytes, or an empty heap when pages run out. */
    constructor (machine: Machine)
      requires machine.Valid()
      modifies machine`tables, machine`place, machine.frames.bits, machine.frames`used
      ensures this.machine == machine && Valid()
      ensures blocks == [Block(HEAP_MIN_EXPAND - HEADER, true)] || (blocks == [] && machine.NearlyNoTable())
    {
      this.machine := machine;
      headers, head, current, mappedEnd, blocks, writes := map[], 0, HEAP_START, HEAP_START, [], {};
      new;
      hide Good, HeapMapped, Linked, Inv, Off;
      NoPages(machine.State(), machine.pml4);
      FirstBlock();
      var ok := MapMore(HEAP_MIN_EXPAND);
      if ok {
        headers := map[current := Header(HEAP_MIN_EXPAND - HEADER, true, 0, 0)];
        head := current;
        blocks := [Block(HEAP_MIN_EXPAND - HEADER, true)];
        current := current + HEAP_MIN_EXPAND;
      }
    }

    /** The pages behind the heap. */
    ghost predicate Backed()
      reads this, machine, machine.frames, machine.frames.bits
    {
      && machine.Valid()
      && HEAP_START <= mappedEnd <= HEAP_LIMIT && mappedEnd % PAGE_SIZE == 0
      && HeapMapped(machine.State(), machine.pml4, mappedEnd)
    }

    /** The list of headers, and the abstract block list it stands for. */
    ghost predicate List()
      reads this
    {
      head == HeadOf(blocks) && Linked(headers, blocks) && Inv(blocks) && current == End(blocks)
    }

    ghost predicate Valid()
      reads this, machine, machine.frames, machine.frames.bits
    {
      Backed() && List() && current <= mappedEnd
    }

    /** Maps fresh pages until `bytes` more are there, clamped at the heap limit. */
    method MapMore(bytes: nat) returns (ok: bool)
      requires Backed() && mappedEnd + bytes < TWO64 && bytes % PAGE_SIZE == 0
      modifies this`mappedEnd, machine`tables, machine`place, machine.frames.bits, machine.frames`used
      ensures Backed() && old(mappedEnd) <= mappedEnd
      ensures ok ==> mappedEnd == if old(mappedEnd) + bytes > HEAP_LIMIT then HEAP_LIMIT else old(mappedEnd) + bytes
      ensures !ok ==> mappedEnd < HEAP_LIMIT && machine.NearlyNoTable()
    {
      hide Good, HeapMapped, BeyondUsed;
      var target := mappedEnd + bytes;
      if target > HEAP_LIMIT {
        target := HEAP_LIMIT;
      }
      PageSum(mappedEnd, bytes);
      while mappedEnd < target
        invariant Backed() && old(mappedEnd) <= mappedEnd <= target
      {
        PageRoom(mappedEnd, target);
        ok := MapOne();
        if !ok {
          return;
        }
      }
      return true;
    }

    /** Maps one fresh page behind the heap. */
    method MapOne() returns (ok: bool)
      requires Backed() && mappedEnd < HEAP_LIMIT
      modifies this`mappedEnd, machine`tables, machine`place, machine.frames.bits, machine.frames`used
      ensures Backed() && mappedEnd == old(mappedEnd) + if ok then PAGE_SIZE else 0
      ensures !ok ==> machine.NearlyNoTable()
    {
      hide Good, Extends, OnlyPage, SameWalks, Walk, HasPt, PageOf, FrameOf, HeapMapped, UpperUserAfter, BeyondUsed, StoreAt, KeepsOthers;
      hide LeafMapping, Machine.NearlyNoTable, Machine.NoFreeTable;
      ghost var a := machine.State();
      var page := machine.frames.AllocPage();
      if page == 0 {
        NothingFree(machine);
        assert machine.State() == a;
        return false;
      }
      ghost var b := machine.State();
      ghost var g := page / PAGE_SIZE;
      MoreUsed(a, g);
      assert b == a.(used := a.used + {g});
      PageFrame(machine.frames.total, page);
      ok := machine.MapPage(mappedEnd, page, PRESENT_WRITABLE);
      ghost var c := machine.State();
      Basics(a);
      NewTablesWereFree(b, c);
      PlaceKept(b, c, machine.pml4);
      if !ok {
        machine.FreeFrame(page);
        GiveBackPage(a, b, c, machine.State(), machine.pml4, mappedEnd, g);
        return;
      }
      HeapPageMapped(a, b, machine.State(), machine.pml4, mappedEnd, g);
      mappedEnd := mappedEnd + PAGE_SIZE;
    }

    // ----- Header stores -----

    method Store(a: nat, h: Header)
      modifies this`headers, this`writes
      ensures headers == old(headers)[a := h] && writes == old(writes) + {a}
    {
      headers := headers[a := h];
      writes := writes + {a};
    }

    method SplitBlock(block: nat, size: nat, ghost i: nat) returns (r: nat)
      requires Linked(headers, blocks) && i < |blocks| && block == Off(blocks, i) && size <= blocks[i].size
      modifies this`headers, this`blocks, this`writes
      ensures r == block && Linked(headers, blocks)
      ensures blocks ==
        if old(blocks)[i].size < size + HEADER + HEAP_ALIGN then old(blocks) else Cut(old(blocks), i, size)
      ensures AreBlocks(writes - old(writes), old(blocks), blocks)
    {
      hide Off, Linked;
      r := block;
      LinkedAt(headers, blocks, i);
      var b := headers[block];
      if b.size < size + HEADER + HEAP_ALIGN {
        return;
      }
      ghost var bs := blocks;
      SplitLinked(headers, bs, i, size);
      SplitPlaces(bs, i, size);
      var newBlock := block + HEADER + size;
      Store(newBlock, Header(b.size - size - HEADER, true, b.next, block));
      if b.next != 0 {
        Store(b.next, headers[b.next].(prev := newBlock));
      }
      Store(block, b.(size := size, next := newBlock));
      blocks := Cut(bs, i, size);
    }

    /** Makes block `i` absorb its successor, which must be free. */
    method AbsorbNext(a: nat, ghost i: nat)
      requires Linked(headers, blocks) && i + 1 < |blocks| && a == Off(blocks, i)
      modifies this`headers, this`blocks, this`writes
      ensures Linked(headers, blocks) && blocks == Join(old(blocks), i)
      ensures AreBlocks(writes - old(writes), old(blocks), blocks)
    {
      hide Off, Linked;
      ghost var bs := blocks;
      JoinLinked(headers, bs, i);
      JoinPlaces(bs, i);
      var n := headers[a].next;
      var after := headers[n].next;
      Store(a, headers[a].(size := headers[a].size + HEADER + headers[n].size, next := after));
      if after != 0 {
        Store(after, headers[after].(prev := a));
      }
      blocks := Join(bs, i);
    }

    method Coalesce(block: nat, ghost i: nat)
      requires Linked(headers, blocks) && i < |blocks| && block == Off(blocks, i)
      modifies this`headers, this`blocks, this`writes
      ensures Linked(headers, blocks) && blocks == JoinPrev(JoinNext(old(blocks), i), i)
      ensures AreOldBlocks(writes - old(writes), old(blocks))
    {
      hide Off, Linked;
      ghost var bs := blocks;
      LinkedAt(headers, bs, i);
      if i + 1 < |bs| { OffDistinct(bs, i + 1, i); }
      if headers[block].next != 0 && headers[headers[block].next].free {
        AbsorbNext(block, i);
        JoinOff(bs, i, i);
        JoinIsOld(bs, i, writes - old(writes));
      }
      ghost var n, w := blocks, writes;
      LinkedAt(headers, n, i);
      if i > 0 { OffDistinct(n, i - 1, i); }
      var prev := headers[block].prev;
      if prev != 0 && headers[prev].free {
        AbsorbNext(prev, i - 1);
        JoinIsOld(n, i - 1, writes - w);
        OldThroughJoin(bs, n, i, writes - w);
      }
    }

    // ----- The interface -----

    /** Takes the fitting block `i` at `block`, keeping the rest free when it is large enough. */
    method TakeBlock(block: nat, size: nat, ghost i: nat) returns (p: nat)
      requires List() && i < |blocks| && block == Off(blocks, i) && Fits(blocks[i], size) && writes == {}
      requires size >= HEAP_ALIGN && size % HEAP_ALIGN == 0
      modifies this`headers, this`blocks, this`writes
      ensures List() && blocks == Take(old(blocks), i, size) && p == Off(old(blocks), i) + HEADER
      ensures Misses(writes, Live(old(blocks)))
    {
      hide Off, Linked, LiveFrom, Inv, Take, IsBlock, Misses;
      ghost var bs := blocks;
      LinkedAt(headers, bs, i);
      FlagLinked(headers, bs, i, false);
      Store(block, headers[block].(free := false));
      blocks := SetFlag(bs, i, false);
      var r := SplitBlock(block, size, i);
      TakeIsCut(bs, i, size);
      TakeLive(bs, i, size);
      TakeInv(bs, i, size);
      TakeWrites(bs, i, size, writes);
      TakeHead(bs, i, size);
      return r + HEADER;
    }

    /** Serves a request from new memory at the end of the heap. */
    method TakeNew(size: nat, expand: nat) returns (p: nat)
      requires List() && Backed() && writes == {} && mappedEnd + expand < TWO64
      requires size >= HEAP_ALIGN && size % HEAP_ALIGN == 0 && size + HEADER <= expand && expand % PAGE_SIZE == 0
      modifies this`headers, this`head, this`current, this`mappedEnd, this`blocks, this`writes
      modifies machine`tables, machine`place, machine.frames.bits, machine.frames`used
      ensures Backed() && List() && old(mappedEnd) <= mappedEnd
      ensures p == 0 ==> blocks == old(blocks) && current == old(current)
      ensures p != 0 ==> blocks == Grow(old(blocks), expand, size) && p == End(old(blocks)) + HEADER
      ensures p != 0 ==> current == old(current) + expand
      ensures p == 0 ==> mappedEnd < HEAP_LIMIT && machine.NearlyNoTable()
      ensures p != 0 ==>
        mappedEnd == if old(mappedEnd) + expand > HEAP_LIMIT then HEAP_LIMIT else old(mappedEnd) + expand
      ensures Misses(writes, Live(old(blocks)))
    {
      hide Off, Linked, Good, HeapMapped, LiveFrom, Inv, Grow, IsBlock, Misses;
      NoWrites(Live(blocks));
      var ok := MapMore(expand);
      if !ok {
        return 0;
      }
      p := LinkNew(size, expand);
    }

    /** The new memory becomes a last block, which serves the request. */
    method LinkNew(size: nat, expand: nat) returns (p: nat)
      requires List() && writes == {}
      requires size >= HEAP_ALIGN && size % HEAP_ALIGN == 0 && size + HEADER <= expand && expand % PAGE_SIZE == 0
      modifies this`headers, this`head, this`current, this`blocks, this`writes
      ensures List() && blocks == Grow(old(blocks), expand, size) && p == End(old(blocks)) + HEADER
      ensures current == old(current) + expand
      ensures Misses(writes, Live(old(blocks)))
    {
      hide Off, End, Linked, Live, Inv, Grow, Cut, HeadOf, AreBlocks, Misses;
      ghost var bs := blocks;
      var b, block := Block(expand - HEADER, false), current;
      AppendLinked(headers, bs, b);
      AppendBlock(block, b);
      ghost var w := writes;
      assert w == w - {};
      var r := SplitBlock(block, size, |bs|);
      current := current + expand;
      GrowFacts(bs, expand, size, w, writes);
      p := r + HEADER;
    }

    /**
      First fit, or new memory when nothing fits. The result and the new block list
      are those of the list model; the memory behind the list is mapped exactly when
      no new memory was taken or it ends within the heap limit: an expansion past
      the limit is clamped silently. Once the heap is mapped up to its limit no request
      fails any more. No store meets the payload of a live block.
     */
    method Kmalloc(size: nat) returns (p: nat)
      requires Valid() && NoWrap(size)
      modifies this`headers, this`head, this`current, this`mappedEnd, this`blocks, this`writes
      modifies machine`tables, machine`place, machine.frames.bits, machine.frames`used
      ensures Backed() && List()
      ensures size == 0 ==> p == 0 && blocks == old(blocks)
      ensures size > 0 ==>
        blocks == MallocBlocks(old(blocks), size, p != 0) && p == MallocResult(old(blocks), size, p != 0)
      ensures current == old(current) || (size > 0 && p != 0 && current == old(current) + Expansion(size))
      ensures size > 0 && p == 0 ==>
        FirstFit(blocks, Rounded(size), 0) == |blocks| && mappedEnd < HEAP_LIMIT && machine.NearlyNoTable()
      ensures current <= mappedEnd <==> (current == old(current) || old(current) + Expansion(size) <= HEAP_LIMIT)
      ensures Misses(writes, Live(old(blocks)))
    {
      hide Off, Linked, Good, HeapMapped, LiveFrom, Inv, Take, Grow, Expansion, Rounded, IsBlock, Misses;
      writes := {};
      NoWrites(Live(blocks));
      if size == 0 {
        return 0;
      }
      ghost var bs := blocks;
      ExpansionCoversIff(size);
      var sz := Rounded(size);
      var block := head;
      ghost var i := 0;
      HeadIsFirst(bs);
      while block != 0
        invariant unchanged(`headers) && unchanged(`blocks) && unchanged(`head) && unchanged(`current) && unchanged(`mappedEnd)
        invariant writes == {} && Valid()
        invariant i <= |bs| && block == AddressOr0(bs, i)
        invariant forall k :: 0 <= k < i ==> !Fits(bs[k], sz)
        decreases |bs| - i
      {
        AddressNot0(bs, i);
        LinkedAt(headers, bs, i);
        var h := headers[block];
        if !h.free || h.size < sz {
          block := h.next;
          i := i + 1;
          continue;
        }
        FitIsFirst(bs, sz, i);
        p := TakeBlock(block, sz, i);
        OffPositive(bs, i);
        TakeLive(bs, i, sz);
        return;
      }
      NoFit(bs, sz, i);
      OffPositive(bs, |bs|);
      p := TakeNew(sz, Expansion(size));
    }

    /** Writes the header of a new last block at `block` and hooks it to the old tail. */
    method AppendBlock(block: nat, b: Block)
      requires Linked(headers, blocks) && head == HeadOf(blocks) && block == End(blocks)
      modifies this`headers, this`head, this`blocks, this`writes
      ensures Linked(headers, blocks) && head == HeadOf(blocks) && blocks == old(blocks) + [b]
      ensures AreBlocks(writes - old(writes), old(blocks), blocks)
    {
      hide Off, Linked;
      ghost var bs := blocks;
      AppendLinked(headers, bs, b);
      AppendPlaces(bs, b);
      HeadIsFirst(bs);
      if head != 0 {
        var tail := head;
        ghost var i := 0;
        LinkedAt(headers, bs, 0);
        while headers[tail].next != 0
          invariant unchanged(this)
          invariant i < |bs| && tail == Off(bs, i) && NodeAt(headers, bs, i)
          decreases |bs| - i
        {
          if i + 1 < |bs| { OffDistinct(bs, i, i + 1); }
          LinkedAt(headers, bs, i + 1);
          tail := headers[tail].next;
          i := i + 1;
        }
        if i + 1 < |bs| { OffDistinct(bs, i, i + 1); }
        OffDistinct(bs, i, |bs|);
        Store(block, Header(b.size, b.free, 0, tail));
        Store(tail, headers[tail].(next := block));
      } else {
        Store(block, Header(b.size, b.free, 0, 0));
        head := block;
      }
      blocks := bs + [b];
    }

    /** Frees a live pointer; the null pointer is ignored. */
    method Kfree(p: nat)
      requires List() && (p == 0 || LiveAt(blocks, p))
      modifies this`headers, this`blocks, this`writes
      ensures List()
      ensures blocks == if p == 0 then old(blocks) else FreeAt(old(blocks), p)
      ensures Misses(writes, Live(blocks))
    {
      hide Off, Linked, LiveFrom, Inv, IsBlock, Misses;
      writes := {};
      NoWrites(Live(blocks));
      if p == 0 {
        return;
      }
      ghost var bs := blocks;
      ghost var i := IndexOf(bs, p, 0);
      var block := p - HEADER;
      FlagLinked(headers, bs, i, true);
      Store(block, headers[block].(free := true));
      blocks := SetFlag(bs, i, true);
      Coalesce(block, i);
      ReleaseLive(bs, i);
      ReleaseInv(bs, i);
      HeadKept(bs, i);
      FreeWrites(bs, i, writes);
    }
  }
}
