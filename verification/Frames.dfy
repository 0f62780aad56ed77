/**
  The physical frame allocator: a bitmap of one bit a frame, kept as an array
  of bytes, proved against a ghost set of used frames.
 */
module Frames {
  const PAGE_SIZE: nat := 4096
  const MAX_PHYS_MEM: nat := 0x8000_0000
  const MAX_FRAMES: nat := 524288
  const BITMAP_BYTES: nat := 65536
  const IDENTITY_MAP_LIMIT: nat := 0x1000_0000
  const USER_IMAGE_PHYS_START: nat := 0x40_0000
  const USER_IMAGE_PHYS_END: nat := 0x80_0000
  const TWO64: nat := 0x1_0000_0000_0000_0000

  type U64 = x: int | 0 <= x < TWO64

  /** `1U << k` for a bit index of one byte. */
  function Mask(k: nat): bv8
    requires k < 8
  {
    if k == 0 then 1 else if k == 1 then 2 else if k == 2 then 4 else if k == 3 then 8
    else if k == 4 then 16 else if k == 5 then 32 else if k == 6 then 64 else 128
  }

  /** `(b >> k) & 1U` as a truth value. */
  function BitOf(b: bv8, k: nat): bool
    requires k < 8
  {
    (if k == 0 then b else if k == 1 then b >> 1 else if k == 2 then b >> 2 else if k == 3 then b >> 3
     else if k == 4 then b >> 4 else if k == 5 then b >> 5 else if k == 6 then b >> 6 else b >> 7) & 1 == 1
  }

  function WithBit(b: bv8, k: nat): bv8
    requires k < 8
  {
    b | Mask(k)
  }

  function WithoutBit(b: bv8, k: nat): bv8
    requires k < 8
  {
    b & !Mask(k)
  }

  lemma BitUpdates(b: bv8, j: nat, k: nat)
    requires j < 8 && k < 8
    ensures BitOf(WithBit(b, k), j) == (j == k || BitOf(b, j))
    ensures BitOf(WithoutBit(b, k), j) == (j != k && BitOf(b, j))
  {
    hide BitOf, Mask, WithBit, WithoutBit;
    BitSet(b, j, k);
    BitCleared(b, j, k);
  }

  lemma BitSet(b: bv8, j: nat, k: nat)
    requires j < 8 && k < 8
    ensures BitOf(WithBit(b, k), j) == (j == k || BitOf(b, j))
  {
  }

  lemma BitCleared(b: bv8, j: nat, k: nat)
    requires j < 8 && k < 8
    ensures BitOf(WithoutBit(b, k), j) == (j != k && BitOf(b, j))
  {
  }

  /** One entry of the boot memory map; `available` is type 1. */
  datatype Region = Region(base: U64, length: U64, available: bool)

  /** A half-open range of physical addresses that must never be handed out. */
  datatype Range = Range(start: U64, end: U64)

  function RegionEnd(r: Region): nat {
    var end := (r.base + r.length) % TWO64;
    if end > MAX_PHYS_MEM then MAX_PHYS_MEM else end
  }

  /** Stepping page by page from the base of `r`, some step falls in frame `f` before the end of `r`. */
  predicate InRegion(r: Region, f: nat) {
    r.available && r.base / PAGE_SIZE <= f && r.base + (f - r.base / PAGE_SIZE) * PAGE_SIZE < RegionEnd(r)
  }

  predicate Available(rs: seq<Region>, f: nat) {
    exists k :: 0 <= k < |rs| && InRegion(rs[k], f)
  }

  predicate IsFrame(f: nat) { f < MAX_FRAMES }

  ghost function AllFrames(): set<nat> { set f: nat | f < MAX_FRAMES && IsFrame(f) }

  ghost predicate NothingAvailable(rs: seq<Region>) {
    forall f: nat :: !Available(rs, f)
  }

  lemma AvailableSnoc(rs: seq<Region>, n: nat)
    requires n < |rs|
    ensures forall f: nat :: Available(rs[..n + 1], f) <==> Available(rs[..n], f) || InRegion(rs[n], f)
  {
    forall f: nat
      ensures Available(rs[..n + 1], f) <==> Available(rs[..n], f) || InRegion(rs[n], f)
    {
      if InRegion(rs[n], f) {
        assert InRegion(rs[..n + 1][n], f);
      }
      if Available(rs[..n], f) {
        var k :| 0 <= k < n && InRegion(rs[..n][k], f);
        assert InRegion(rs[..n + 1][k], f);
      }
      if Available(rs[..n + 1], f) {
        var k :| 0 <= k < n + 1 && InRegion(rs[..n + 1][k], f);
        assert k < n ==> InRegion(rs[..n][k], f);
      }
    }
  }

  function AlignDown(a: nat): nat { a / PAGE_SIZE * PAGE_SIZE }

  /** `(end + PAGE_SIZE - 1) & PAGE_MASK` in 64-bit arithmetic. */
  function AlignUp(a: U64): nat { (a + PAGE_SIZE - 1) % TWO64 / PAGE_SIZE * PAGE_SIZE }

  /** The page of frame `f` meets the page-rounded range. */
  predicate InRange(r: Range, f: nat) {
    AlignDown(r.start) <= f * PAGE_SIZE < AlignUp(r.end)
  }

  predicate Reserved(rs: seq<Range>, f: nat) {
    exists k :: 0 <= k < |rs| && InRange(rs[k], f)
  }

  lemma ReservedSnoc(rs: seq<Range>, n: nat)
    requires n < |rs|
    ensures forall f: nat :: Reserved(rs[..n + 1], f) <==> Reserved(rs[..n], f) || InRange(rs[n], f)
  {
    forall f: nat
      ensures Reserved(rs[..n + 1], f) <==> Reserved(rs[..n], f) || InRange(rs[n], f)
    {
      if InRange(rs[n], f) {
        assert InRange(rs[..n + 1][n], f);
      }
      if Reserved(rs[..n], f) {
        var k :| 0 <= k < n && InRange(rs[..n][k], f);
        assert InRange(rs[..n + 1][k], f);
      }
      if Reserved(rs[..n + 1], f) {
        var k :| 0 <= k < n + 1 && InRange(rs[..n + 1][k], f);
        assert k < n ==> InRange(rs[..n][k], f);
      }
    }
  }

  /** The kernel image, the boot stack, the fixed window of user images, then the boot modules. */
  function ReservedRanges(kernelEnd: U64, stackBottom: U64, stackTop: U64, modules: seq<Range>): seq<Range> {
    [Range(0, if MAX_PHYS_MEM < kernelEnd then MAX_PHYS_MEM else kernelEnd),
     Range(stackBottom, stackTop),
     Range(USER_IMAGE_PHYS_START, USER_IMAGE_PHYS_END)] + modules
  }

  /** The byte at address `a` lies in [start, end) and in frame `f`. */
  predicate ByteOf(start: nat, end: nat, f: nat, a: nat) { start <= a < end && f * 4096 <= a < f * 4096 + 4096 }

  /** Some byte of frame `f` lies in [start, end). */
  ghost predicate Meets(start: nat, end: nat, f: nat) { exists a: nat :: ByteOf(start, end, f, a) }

  /** Rounding a range to pages takes in every frame it meets, and of a range that is not empty no other. */
  lemma InRangeIff(r: Range, f: nat)
    requires r.end <= TWO64 - 4096
    ensures Meets(r.start, r.end, f) ==> InRange(r, f)
    ensures r.start < r.end ==> (InRange(r, f) <==> Meets(r.start, r.end, f))
  {
    if Meets(r.start, r.end, f) {
      var a: nat :| ByteOf(r.start, r.end, f, a);
      RangeMeets(r, f, a);
    }
    if r.start < r.end && InRange(r, f) {
      RangeByte(r, f);
      assert ByteOf(r.start, r.end, f, if r.start < f * 4096 then f * 4096 else r.start);
    }
  }

  lemma RangeMeets(r: Range, f: nat, a: nat)
    requires r.end <= TWO64 - 4096 && ByteOf(r.start, r.end, f, a)
    ensures InRange(r, f)
  {
    assert r.start / 4096 <= f;
    assert f < (r.end + 4095) / 4096;
  }

  lemma RangeByte(r: Range, f: nat)
    requires r.start < r.end <= TWO64 - 4096 && InRange(r, f)
    ensures f * 4096 < r.end && r.start < f * 4096 + 4096
  {
    assert r.start / 4096 <= f;
    assert f < (r.end + 4095) / 4096;
  }

  /**
    A frame is reserved if and only if it meets the kernel image below 2 GiB, the boot
    stack or a boot module, or lies in [4 MiB, 8 MiB).
   */
  lemma ReservedIff(kernelEnd: U64, stackBottom: U64, stackTop: U64, modules: seq<Range>, f: nat)
    requires 0 < kernelEnd && stackBottom < stackTop <= TWO64 - 4096
    requires forall r :: r in modules ==> r.start < r.end <= TWO64 - 4096
    ensures Reserved(ReservedRanges(kernelEnd, stackBottom, stackTop, modules), f) <==>
      || Meets(0, if kernelEnd < 0x8000_0000 then kernelEnd else 0x8000_0000, f)
      || Meets(stackBottom, stackTop, f)
      || 0x400 <= f < 0x800
      || exists r :: r in modules && Meets(r.start, r.end, f)
  {
    hide Meets, InRange;
    var ranges := ReservedRanges(kernelEnd, stackBottom, stackTop, modules);
    InRangeIff(ranges[0], f);
    InRangeIff(ranges[1], f);
    WindowFrames(f);
    forall r | r in modules
      ensures InRange(r, f) <==> Meets(r.start, r.end, f)
    {
      InRangeIff(r, f);
    }
    forall k | 0 <= k < |ranges|
      ensures InRange(ranges[k], f) ==>
        k < 3 || exists r :: r in modules && Meets(r.start, r.end, f)
    {
      assert k >= 3 ==> ranges[k] == modules[k - 3];
    }
    forall r | r in modules && Meets(r.start, r.end, f)
      ensures Reserved(ranges, f)
    {
      var k :| 0 <= k < |modules| && modules[k] == r;
      assert ranges[k + 3] == r;
    }
    assert InRange(ranges[0], f) || InRange(ranges[1], f) || InRange(ranges[2], f) ==> Reserved(ranges, f);
  }

  lemma WindowFrames(f: nat)
    ensures InRange(Range(USER_IMAGE_PHYS_START, USER_IMAGE_PHYS_END), f) <==> 0x400 <= f < 0x800
  {
  }

  /** The byte at `base + k * 4096` lies in frame `f` below `end`. */
  predicate StepIn(base: nat, end: nat, f: nat, k: nat) { f * 4096 <= base + k * 4096 < f * 4096 + 4096 && base + k * 4096 < end }

  /**
    A frame is taken from a region if and only if the region is available and one of its
    steps of 4096 bytes falls in it below 2 GiB and below the region's end, which is base
    plus length, less 2^64 where that wraps.
   */
  lemma InRegionIff(r: Region, f: nat)
    ensures var sum := r.base + r.length; var end := if sum < TWO64 then sum else sum - TWO64;
      var cap := if end < 0x8000_0000 then end else 0x8000_0000;
      InRegion(r, f) <==> r.available && exists k: nat :: StepIn(r.base, cap, f, k)
  {
    var cap := RegionEnd(r);
    if InRegion(r, f) {
      assert StepIn(r.base, cap, f, f - r.base / PAGE_SIZE);
    }
    if k: nat :| StepIn(r.base, cap, f, k) {
      StepFrame(r.base, f, k);
    }
  }

  lemma StepFrame(base: nat, f: nat, k: nat)
    requires f * 4096 <= base + k * 4096 < f * 4096 + 4096
    ensures base / PAGE_SIZE + k == f
  {
    var d := f - k;
    assert d * 4096 <= base < d * 4096 + 4096;
  }

  /** Frame 0 is reserved with the kernel image. */
  lemma ZeroReserved(kernelEnd: U64, stackBottom: U64, stackTop: U64, modules: seq<Range>)
    ensures kernelEnd > 0 ==> Reserved(ReservedRanges(kernelEnd, stackBottom, stackTop, modules), 0)
  {
    var ranges := ReservedRanges(kernelEnd, stackBottom, stackTop, modules);
    assert kernelEnd > 0 ==> InRange(ranges[0], 0);
  }

  ghost predicate BeyondUsed(used: set<nat>, total: nat) { forall f: nat :: total <= f < MAX_FRAMES ==> f in used }

  lemma StillBeyond(used: set<nat>, total: nat, g: nat)
    requires BeyondUsed(used, total)
    ensures BeyondUsed(used + {g}, total)
  {
  }

  lemma PageNumber(n: nat)
    ensures n * PAGE_SIZE / PAGE_SIZE == n && n * PAGE_SIZE % PAGE_SIZE == 0
  {
  }

  lemma FrameStaysBelow(used: set<nat>, total: nat, g: nat)
    requires BeyondUsed(used, total) && g < total
    ensures BeyondUsed(used - {g}, total)
  {
  }

  /**
    The bitmap. `used` is the abstract state: the frames below MAX_FRAMES whose
    bit is set. Every method states its effect on `used` alone.
   */
  class FrameBitmap {
    const bits: array<bv8>
    const kernelEnd: U64
    const stackTop: U64
    var total: nat
    ghost var used: set<nat>

    ghost predicate Bits()
      reads this, bits
    {
      && bits.Length == BITMAP_BYTES
      && total <= MAX_FRAMES
      && (forall f :: f in used ==> 0 <= f < MAX_FRAMES)
      && (forall f: nat :: f < MAX_FRAMES ==> (f in used <==> BitOf(bits[f / 8], f % 8)))
    }

    /** Frame 0 is never free, so a zero page address always means failure; nor is a frame beyond the total. */
    ghost predicate Valid()
      reads this, bits
    {
      Bits() && 0 in used && BeyondUsed(used, total)
    }

    /**
      `paging_init` up to the identity-map extension: everything is used, the
      available regions are cleared, and the reserved ranges are set again. With
      no available frame below MAX_PHYS_MEM every frame starts free instead.
     */
    constructor (regions: seq<Region>, kernelEnd: U64, stackBottom: U64, stackTop: U64, modules: seq<Range>)
      ensures Bits() && fresh(bits)
      ensures this.kernelEnd == kernelEnd && this.stackTop == stackTop
      ensures forall f: nat :: f < MAX_FRAMES ==>
        (f !in used <==>
          (Available(regions, f) || NothingAvailable(regions))
          && !Reserved(ReservedRanges(kernelEnd, stackBottom, stackTop, modules), f))
      ensures forall f: nat :: Available(regions, f) ==> f < total
      ensures total > 0 && (NothingAvailable(regions) || Available(regions, total - 1))
      ensures kernelEnd > 0 ==> Valid()
    {
      bits := new bv8[BITMAP_BYTES];
      this.kernelEnd, this.stackTop := kernelEnd, stackTop;
      total := 0;
      new;
      hide Available, Reserved, BitOf;
      FillBits(0xFF);
      var n := 0;
      while n < |regions|
        invariant n <= |regions| && Bits() && fresh(bits)
        invariant forall f: nat :: f < MAX_FRAMES ==> (f !in used <==> Available(regions[..n], f))
        invariant forall f: nat :: Available(regions[..n], f) ==> f < total
        invariant total == 0 || Available(regions[..n], total - 1)
      {
        AddRegion(regions[n]);
        AvailableSnoc(regions, n);
        n := n + 1;
      }
      assert regions[..n] == regions;
      assert total == 0 <==> NothingAvailable(regions);
      if total == 0 {
        total := MAX_FRAMES;
        FillBits(0);
      }
      ghost var cleared, limit := used, total;
      var ranges := ReservedRanges(kernelEnd, stackBottom, stackTop, modules);
      n := 0;
      while n < |ranges|
        invariant n <= |ranges| && Bits() && fresh(bits) && total == limit
        invariant forall f: nat :: f < MAX_FRAMES ==> (f in used <==> f in cleared || Reserved(ranges[..n], f))
      {
        Reserve(ranges[n].start, ranges[n].end);
        ReservedSnoc(ranges, n);
        n := n + 1;
      }
      assert ranges[..n] == ranges;
      ZeroReserved(kernelEnd, stackBottom, stackTop, modules);
    }

    method FillBits(value: bv8)
      requires bits.Length == BITMAP_BYTES && total <= MAX_FRAMES
      requires value == 0xFF || value == 0
      modifies bits, `used
      ensures Bits()
      ensures used == if value == 0 then {} else AllFrames()
    {
      forall i | 0 <= i < BITMAP_BYTES {
        bits[i] := value;
      }
      used := if value == 0 then {} else AllFrames();
    }

    method Set(frame: nat)
      requires Bits()
      modifies bits, `used
      ensures Bits()
      ensures used == old(used) + if frame < MAX_FRAMES then {frame} else {}
    {
      if frame >= MAX_FRAMES {
        return;
      }
      hide BitOf, Mask, WithBit, WithoutBit;
      ghost var b := bits[frame / 8];
      bits[frame / 8] := WithBit(bits[frame / 8], frame % 8);
      used := used + {frame};
      forall f: nat | f < MAX_FRAMES
        ensures f in used <==> BitOf(bits[f / 8], f % 8)
      {
        BitUpdates(b, f % 8, frame % 8);
      }
    }

    method Clear(frame: nat)
      requires Bits()
      modifies bits, `used
      ensures Bits()
      ensures used == old(used) - {frame}
    {
      if frame >= MAX_FRAMES {
        return;
      }
      hide BitOf, Mask, WithBit, WithoutBit;
      ghost var b := bits[frame / 8];
      bits[frame / 8] := WithoutBit(bits[frame / 8], frame % 8);
      used := used - {frame};
      forall f: nat | f < MAX_FRAMES
        ensures f in used <==> BitOf(bits[f / 8], f % 8)
      {
        BitUpdates(b, f % 8, frame % 8);
      }
    }

    method Test(frame: nat) returns (r: bool)
      requires Bits()
      ensures r == (frame >= MAX_FRAMES || frame in used)
    {
      if frame >= MAX_FRAMES {
        return true;
      }
      return BitOf(bits[frame / 8], frame % 8);
    }

    method Reserve(start: U64, end: U64)
      requires Bits()
      modifies bits, `used
      ensures Bits()
      ensures forall f: nat :: f in used <==> f in old(used) || (f < MAX_FRAMES && InRange(Range(start, end), f))
    {
      hide BitOf;
      var addr := AlignDown(start);
      var last := AlignUp(end);
      ghost var first, n := start / PAGE_SIZE, start / PAGE_SIZE;
      ghost var upto := (end + PAGE_SIZE - 1) % TWO64 / PAGE_SIZE;
      while addr < last
        invariant Bits() && addr == n * PAGE_SIZE && last == upto * PAGE_SIZE && first <= n
        invariant forall f: nat :: f in used <==> f in old(used) || (f < MAX_FRAMES && first <= f < upto && f < n)
      {
        PageNumber(n);
        if addr / PAGE_SIZE < MAX_FRAMES {
          Set(addr / PAGE_SIZE);
        }
        addr := addr + PAGE_SIZE;
        n := n + 1;
      }
      forall f: nat
        ensures first <= f < upto <==> InRange(Range(start, end), f)
      {
      }
    }

    method AllocPage() returns (page: nat)
      requires Valid()
      modifies bits, `used
      ensures Valid()
      ensures page % PAGE_SIZE == 0
      ensures page == 0 ==> used == old(used) && forall f: nat :: f < total ==> f in used
      ensures page != 0 ==>
        var f := page / PAGE_SIZE;
        f < total && f !in old(used) && used == old(used) + {f} && forall g: nat :: g < f ==> g in old(used)
    {
      hide BitOf, Mask, WithBit, WithoutBit, BeyondUsed;
      var i := 0;
      while i < total
        invariant forall g: nat :: g < i ==> g in used
        invariant Valid() && used == old(used) && unchanged(bits)
      {
        PageNumber(i);
        var t := Test(i);
        if !t {
          Set(i);
          StillBeyond(old(used), total, i);
          return i * PAGE_SIZE;
        }
        i := i + 1;
      }
      return 0;
    }

    /** May frame `f` become a page table: identity mapped and outside the kernel tail and boot stack. */
    predicate TableFrame(f: nat)
      reads this
    {
      f < total && f * PAGE_SIZE < IDENTITY_MAP_LIMIT && !(kernelEnd <= f * PAGE_SIZE < stackTop)
    }

    /** The scan of `paging_alloc_table`; the caller zeroes the frame. */
    method AllocTable() returns (page: nat)
      requires Valid()
      modifies bits, `used
      ensures Valid()
      ensures page % PAGE_SIZE == 0
      ensures page == 0 ==> used == old(used) && forall f: nat :: TableFrame(f) ==> f in used
      ensures page != 0 ==>
        var f := page / PAGE_SIZE;
        TableFrame(f) && f !in old(used) && used == old(used) + {f}
        && forall g: nat :: g < f && TableFrame(g) ==> g in old(used)
    {
      hide BitOf, Mask, WithBit, WithoutBit, BeyondUsed;
      var i := 0;
      while i < total
        invariant Valid() && used == old(used) && unchanged(bits)
        invariant forall g: nat :: g < i && TableFrame(g) ==> g in used
      {
        PageNumber(i);
        var addr := i * PAGE_SIZE;
        if addr >= IDENTITY_MAP_LIMIT {
          break;
        }
        if kernelEnd <= addr < stackTop {
          i := i + 1;
          continue;
        }
        var t := Test(i);
        if !t {
          Set(i);
          StillBeyond(old(used), total, i);
          return addr;
        }
        i := i + 1;
      }
      return 0;
    }

    method FreePage(page: nat)
      requires Bits()
      modifies bits, `used
      ensures Bits()
      ensures used == old(used) - if page != 0 && page / PAGE_SIZE < total then {page / PAGE_SIZE} else {}
    {
      if page == 0 {
        return;
      }
      var frame := page / PAGE_SIZE;
      if frame < total {
        Clear(frame);
      }
    }

    method AddRegion(r: Region)
      requires Bits()
      modifies bits, `used, `total
      ensures Bits()
      ensures forall f: nat :: f < MAX_FRAMES ==> (f in used <==> f in old(used) && !InRegion(r, f))
      ensures old(total) <= total
      ensures forall f: nat :: InRegion(r, f) ==> f < total
      ensures total == old(total) || (total > 0 && InRegion(r, total - 1))
    {
      if r.available {
        var end := RegionEnd(r);
        if r.base < MAX_PHYS_MEM {
          var addr: nat := r.base;
          ghost var first := r.base / PAGE_SIZE;
          ghost var steps := 0;
          while addr < end
            invariant Bits()
            invariant addr == r.base + steps * PAGE_SIZE && addr / PAGE_SIZE == first + steps
            invariant steps > 0 ==> addr - PAGE_SIZE < end
            invariant forall f: nat :: f < MAX_FRAMES ==> (f in used <==> f in old(used) && !(first <= f < first + steps))
            invariant old(total) <= total
            invariant steps > 0 ==> first + steps <= total
            invariant total == old(total) || (steps > 0 && total == first + steps)
          {
            var frame := addr / PAGE_SIZE;
            if frame + 1 > total {
              total := frame + 1;
            }
            Clear(frame);
            addr := addr + PAGE_SIZE;
            steps := steps + 1;
          }
        }
      }
    }
  }

  /** Page tables come from frames below the frame total and 256 MiB that do not begin between the kernel's end and the top of the boot stack. */
  lemma TableFramesAre(b: FrameBitmap, f: nat)
    ensures b.TableFrame(f) <==> f < b.total && f < 0x1_0000 && (f * 4096 < b.kernelEnd || b.stackTop <= f * 4096)
  {
  }
}
