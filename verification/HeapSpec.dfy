/**
  The kernel heap as a list of blocks that tile one address range: what
  allocation and freeing do to the list, and what they keep.
 */
module HeapSpec {
  import opened Frames

  const HEADER: nat := 32
  const HEAP_ALIGN: nat := 16
  const HEAP_START: nat := 0x1000_0000
  const HEAP_LIMIT: nat := 0x5000_0000
  const HEAP_MIN_EXPAND: nat := 65536

  datatype Block = Block(size: nat, free: bool)

  /** Address of the header of block `i`: the blocks follow each other without gaps. */
  function Off(bs: seq<Block>, i: nat): nat
    requires i <= |bs|
  {
    if i == 0 then HEAP_START else Off(bs, i - 1) + HEADER + bs[i - 1].size
  }

  function End(bs: seq<Block>): nat { Off(bs, |bs|) }

  predicate SoundSize(n: nat) { n >= HEAP_ALIGN && n % HEAP_ALIGN == 0 }

  predicate Sized(bs: seq<Block>) { forall i :: 0 <= i < |bs| ==> SoundSize(bs[i].size) }

  predicate Coalesced(bs: seq<Block>) {
    forall i :: 0 < i < |bs| ==> !(bs[i - 1].free && bs[i].free)
  }

  predicate Inv(bs: seq<Block>) { Sized(bs) && Coalesced(bs) }

  predicate Fits(b: Block, size: nat) { b.free && b.size >= size }

  /** Index of the first free block of at least `size` bytes, |bs| when there is none. */
  function FirstFit(bs: seq<Block>, size: nat, from: nat): (i: nat)
    requires from <= |bs|
    ensures from <= i <= |bs| && (i < |bs| ==> Fits(bs[i], size))
    ensures forall k :: from <= k < i ==> !Fits(bs[k], size)
    decreases |bs| - from
  {
    if from == |bs| || Fits(bs[from], size) then from else FirstFit(bs, size, from + 1)
  }

  /** A used block of `size` bytes, and the rest as a free block when it can hold one. */
  function Split(total: nat, size: nat): seq<Block>
    requires size <= total
  {
    if total < size + HEADER + HEAP_ALIGN then [Block(total, false)]
    else [Block(size, false), Block(total - size - HEADER, true)]
  }

  /** Allocation from block `i`. */
  function Take(bs: seq<Block>, i: nat, size: nat): seq<Block>
    requires i < |bs| && size <= bs[i].size
  {
    bs[..i] + Split(bs[i].size, size) + bs[i + 1..]
  }

  /** Allocation from `expand` bytes of new memory at the end. */
  function Grow(bs: seq<Block>, expand: nat, size: nat): seq<Block>
    requires size + HEADER <= expand
  {
    bs + Split(expand - HEADER, size)
  }

  /** Block `i` absorbs its right neighbour. */
  function Join(bs: seq<Block>, i: nat): seq<Block>
    requires i + 1 < |bs|
  {
    bs[..i] + [Block(bs[i].size + HEADER + bs[i + 1].size, bs[i].free)] + bs[i + 2..]
  }

  function JoinNext(bs: seq<Block>, i: nat): seq<Block>
    requires i < |bs|
  {
    if i + 1 < |bs| && bs[i + 1].free then Join(bs, i) else bs
  }

  function JoinPrev(bs: seq<Block>, i: nat): seq<Block>
    requires i < |bs|
  {
    if i > 0 && bs[i - 1].free then Join(bs, i - 1) else bs
  }

  function MarkFree(bs: seq<Block>, i: nat): seq<Block>
    requires i < |bs|
  {
    bs[i := Block(bs[i].size, true)]
  }

  function Release(bs: seq<Block>, i: nat): seq<Block>
    requires i < |bs|
  {
    JoinPrev(JoinNext(MarkFree(bs, i), i), i)
  }

  // ----- Addresses -----

  lemma {:induction false} OffPrefix(a: seq<Block>, b: seq<Block>, i: nat)
    requires i <= |a| && i <= |b| && a[..i] == b[..i]
    ensures Off(a, i) == Off(b, i)
  {
    if i > 0 {
      assert a[..i - 1] == a[..i][..i - 1] && b[..i - 1] == b[..i][..i - 1];
      assert a[i - 1] == a[..i][i - 1] && b[i - 1] == b[..i][i - 1];
      OffPrefix(a, b, i - 1);
    }
  }

  /** Replacing a middle part by one of the same extent moves nothing behind it. */
  lemma {:induction false} OffSuffix(a: seq<Block>, i: nat, b: seq<Block>, j: nat, k: nat)
    requires i + k <= |a| && j + k <= |b| && Off(a, i) == Off(b, j) && a[i..i + k] == b[j..j + k]
    ensures Off(a, i + k) == Off(b, j + k)
  {
    if k > 0 {
      assert a[i..i + k - 1] == a[i..i + k][..k - 1] && b[j..j + k - 1] == b[j..j + k][..k - 1];
      assert a[i + k - 1] == a[i..i + k][k - 1] && b[j + k - 1] == b[j..j + k][k - 1];
      OffSuffix(a, i, b, j, k - 1);
    }
  }

  lemma {:induction false} OffMonotone(bs: seq<Block>, i: nat, j: nat)
    requires i < j <= |bs|
    ensures Off(bs, i) + HEADER + bs[i].size <= Off(bs, j)
  {
    if i + 1 < j {
      OffMonotone(bs, i, j - 1);
    }
  }

  lemma {:induction false} OffAligned(bs: seq<Block>, i: nat)
    requires i <= |bs| && Sized(bs)
    ensures Off(bs, i) % HEAP_ALIGN == 0 && Off(bs, i) >= HEAP_START
  {
    if i > 0 {
      OffAligned(bs, i - 1);
      AlignedSum(Off(bs, i - 1), bs[i - 1].size);
    }
  }

  lemma AlignedSum(a: nat, b: nat)
    requires a % HEAP_ALIGN == 0 && b % HEAP_ALIGN == 0
    ensures (a + HEADER + b) % HEAP_ALIGN == 0
  {
    var m, n := a / HEAP_ALIGN, b / HEAP_ALIGN;
    assert a + HEADER + b == HEAP_ALIGN * (m + n + 2);
  }

  /** Payloads are 16-aligned. */
  lemma PayloadAligned(bs: seq<Block>, i: nat)
    requires Inv(bs) && i < |bs|
    ensures (Off(bs, i) + HEADER) % HEAP_ALIGN == 0
  {
    OffAligned(bs, i);
  }

  /** Blocks with their headers lie inside the heap and apart from each other. */
  lemma BlocksApart(bs: seq<Block>, i: nat, j: nat)
    requires i < |bs| && j < |bs|
    ensures Off(bs, i) + HEADER + bs[i].size <= End(bs)
    ensures i != j ==> Off(bs, i) + HEADER + bs[i].size <= Off(bs, j) || Off(bs, j) + HEADER + bs[j].size <= Off(bs, i)
  {
    OffMonotone(bs, i, |bs|);
    if i < j {
      OffMonotone(bs, i, j);
    } else if j < i {
      OffMonotone(bs, j, i);
    }
  }

  // ----- Live allocations -----

  function Extent(bs: seq<Block>): nat {
    if bs == [] then 0 else HEADER + bs[0].size + Extent(bs[1..])
  }

  /** Payload address and size of every used block, the first header being at `base`. */
  function LiveFrom(bs: seq<Block>, base: nat): set<(nat, nat)>
    decreases |bs|
  {
    if bs == [] then {}
    else (if bs[0].free then {} else {(base + HEADER, bs[0].size)}) + LiveFrom(bs[1..], base + HEADER + bs[0].size)
  }

  function Live(bs: seq<Block>): set<(nat, nat)> { LiveFrom(bs, HEAP_START) }

  lemma {:induction false} Concat(a: seq<Block>, b: seq<Block>, base: nat)
    ensures Extent(a + b) == Extent(a) + Extent(b)
    ensures LiveFrom(a + b, base) == LiveFrom(a, base) + LiveFrom(b, base + Extent(a))
    decreases |a|
  {
    if a == [] {
      assert a + b == b;
    } else {
      assert (a + b)[1..] == a[1..] + b;
      Concat(a[1..], b, base + HEADER + a[0].size);
    }
  }

  lemma {:induction false} OffIsExtent(bs: seq<Block>, i: nat)
    requires i <= |bs|
    ensures Off(bs, i) == HEAP_START + Extent(bs[..i])
  {
    if i > 0 {
      OffIsExtent(bs, i - 1);
      assert bs[..i] == bs[..i - 1] + [bs[i - 1]];
      Concat(bs[..i - 1], [bs[i - 1]], 0);
      assert Extent([bs[i - 1]]) == HEADER + bs[i - 1].size;
    }
  }

  lemma EndIsExtent(bs: seq<Block>)
    ensures End(bs) == HEAP_START + Extent(bs)
  {
    OffIsExtent(bs, |bs|);
    assert bs[..|bs|] == bs;
  }

  lemma ThreeParts(pre: seq<Block>, mid: seq<Block>, post: seq<Block>)
    ensures var o := HEAP_START + Extent(pre);
      Live(pre + mid + post) == LiveFrom(pre, HEAP_START) + LiveFrom(mid, o) + LiveFrom(post, o + Extent(mid))
    ensures Extent(pre + mid + post) == Extent(pre) + Extent(mid) + Extent(post)
  {
    hide LiveFrom, Extent;
    assert pre + mid + post == pre + (mid + post);
    Concat(pre, mid + post, HEAP_START);
    Concat(mid, post, HEAP_START + Extent(pre));
  }

  /** The heap seen as what lies before, in, and behind blocks [i, j). */
  lemma Around(bs: seq<Block>, i: nat, j: nat)
    requires i <= j <= |bs|
    ensures Live(bs) ==
      LiveFrom(bs[..i], HEAP_START) + LiveFrom(bs[i..j], Off(bs, i)) + LiveFrom(bs[j..], Off(bs, i) + Extent(bs[i..j]))
    ensures Extent(bs) == Extent(bs[..i]) + Extent(bs[i..j]) + Extent(bs[j..])
    ensures Off(bs, i) == HEAP_START + Extent(bs[..i])
  {
    hide LiveFrom, Extent, Off;
    assert bs == bs[..i] + bs[i..j] + bs[j..];
    ThreeParts(bs[..i], bs[i..j], bs[j..]);
    OffIsExtent(bs, i);
  }

  /** Replacing blocks [i, j) by blocks of the same extent changes the live set only there. */
  lemma Replace(bs: seq<Block>, i: nat, j: nat, mid: seq<Block>)
    requires i <= j <= |bs| && Extent(mid) == Extent(bs[i..j])
    ensures Live(bs[..i] + mid + bs[j..]) ==
      LiveFrom(bs[..i], HEAP_START) + LiveFrom(mid, Off(bs, i)) + LiveFrom(bs[j..], Off(bs, i) + Extent(mid))
    ensures End(bs[..i] + mid + bs[j..]) == End(bs)
  {
    hide LiveFrom, Extent, Off;
    ThreeParts(bs[..i], mid, bs[j..]);
    Around(bs, i, j);
    EndIsExtent(bs);
    EndIsExtent(bs[..i] + mid + bs[j..]);
  }

  lemma {:induction false} LiveBounds(bs: seq<Block>, base: nat, e: (nat, nat))
    requires e in LiveFrom(bs, base)
    ensures base + HEADER <= e.0 && e.0 + e.1 <= base + Extent(bs)
    decreases |bs|
  {
    if bs[0].free || e != (base + HEADER, bs[0].size) {
      LiveBounds(bs[1..], base + HEADER + bs[0].size, e);
    }
  }

  lemma OneOrTwo(a: Block, b: Block, base: nat)
    ensures Extent([a]) == HEADER + a.size && Extent([a, b]) == HEADER + a.size + HEADER + b.size
    ensures LiveFrom([a], base) == if a.free then {} else {(base + HEADER, a.size)}
    ensures LiveFrom([a, b], base) == LiveFrom([a], base) + LiveFrom([b], base + HEADER + a.size)
  {
    assert [a, b] == [a] + [b];
    Concat([a], [b], base);
    assert [a][1..] == [];
  }

  /** The block an allocation hands out: the size asked for, or the whole block when the rest is too small. */
  function Granted(total: nat, size: nat): nat {
    if total < size + HEADER + HEAP_ALIGN then total else size
  }

  lemma SplitParts(total: nat, size: nat, base: nat)
    requires size <= total
    ensures Extent(Split(total, size)) == HEADER + total
    ensures LiveFrom(Split(total, size), base) == {(base + HEADER, Granted(total, size))}
    ensures size <= Granted(total, size) <= total
  {
    OneOrTwo(Block(size, false), Block(if total >= size + HEADER then total - size - HEADER else 0, true), base);
    OneOrTwo(Block(total, false), Block(0, true), base);
  }

  /** Allocating from a free block adds exactly one live payload, at that block. */
  lemma TakeLive(bs: seq<Block>, i: nat, size: nat)
    requires i < |bs| && Fits(bs[i], size)
    ensures Live(Take(bs, i, size)) == Live(bs) + {(Off(bs, i) + HEADER, Granted(bs[i].size, size))}
    ensures forall e :: e in Live(bs) ==> e.0 != Off(bs, i) + HEADER
    ensures End(Take(bs, i, size)) == End(bs)
  {
    hide LiveFrom, Extent, Off, Split;
    var o := Off(bs, i);
    assert bs[i..i + 1] == [bs[i]];
    OneOrTwo(bs[i], bs[i], o);
    SplitParts(bs[i].size, size, o);
    Replace(bs, i, i + 1, Split(bs[i].size, size));
    Around(bs, i, i + 1);
    forall e | e in Live(bs)
      ensures e.0 != o + HEADER
    {
      if e in LiveFrom(bs[..i], HEAP_START) {
        LiveBounds(bs[..i], HEAP_START, e);
      } else {
        LiveBounds(bs[i + 1..], o + HEADER + bs[i].size, e);
      }
    }
  }

  /** Allocating from new memory adds exactly one live payload, behind everything. */
  lemma GrowLive(bs: seq<Block>, expand: nat, size: nat)
    requires size + HEADER <= expand
    ensures Live(Grow(bs, expand, size)) == Live(bs) + {(End(bs) + HEADER, Granted(expand - HEADER, size))}
    ensures forall e :: e in Live(bs) ==> e.0 != End(bs) + HEADER
    ensures End(Grow(bs, expand, size)) == End(bs) + expand
  {
    hide LiveFrom, Extent, Off, Split;
    EndIsExtent(bs);
    EndIsExtent(Grow(bs, expand, size));
    SplitParts(expand - HEADER, size, End(bs));
    Concat(bs, Split(expand - HEADER, size), HEAP_START);
    forall e | e in Live(bs)
      ensures e.0 != End(bs) + HEADER
    {
      LiveBounds(bs, HEAP_START, e);
    }
  }

  lemma JoinLive(bs: seq<Block>, i: nat)
    requires i + 1 < |bs| && bs[i].free && bs[i + 1].free
    ensures Live(Join(bs, i)) == Live(bs) && End(Join(bs, i)) == End(bs)
  {
    hide LiveFrom, Extent, Off;
    assert bs[i..i + 2] == [bs[i], bs[i + 1]];
    OneOrTwo(bs[i], bs[i + 1], Off(bs, i));
    OneOrTwo(bs[i + 1], bs[i + 1], Off(bs, i) + HEADER + bs[i].size);
    var one := Block(bs[i].size + HEADER + bs[i + 1].size, bs[i].free);
    OneOrTwo(one, one, Off(bs, i));
    Replace(bs, i, i + 2, [one]);
    Around(bs, i, i + 2);
  }

  /** Freeing a used block removes exactly its payload from the live set. */
  lemma ReleaseLive(bs: seq<Block>, i: nat)
    requires i < |bs| && !bs[i].free
    ensures Live(Release(bs, i)) == Live(bs) - {(Off(bs, i) + HEADER, bs[i].size)}
    ensures (Off(bs, i) + HEADER, bs[i].size) in Live(bs)
    ensures End(Release(bs, i)) == End(bs)
  {
    hide LiveFrom, Extent, Off;
    var m := MarkFree(bs, i);
    MarkLive(bs, i);
    if i + 1 < |m| && m[i + 1].free {
      JoinLive(m, i);
    }
    var n := JoinNext(m, i);
    if i > 0 && n[i - 1].free {
      JoinLive(n, i - 1);
    }
  }

  lemma MarkLive(bs: seq<Block>, i: nat)
    requires i < |bs| && !bs[i].free
    ensures Live(MarkFree(bs, i)) == Live(bs) - {(Off(bs, i) + HEADER, bs[i].size)}
    ensures (Off(bs, i) + HEADER, bs[i].size) in Live(bs) && End(MarkFree(bs, i)) == End(bs)
  {
    hide LiveFrom, Extent, Off;
    var o, e := Off(bs, i), (Off(bs, i) + HEADER, bs[i].size);
    assert bs[i..i + 1] == [bs[i]];
    assert MarkFree(bs, i) == bs[..i] + [Block(bs[i].size, true)] + bs[i + 1..];
    OneOrTwo(bs[i], bs[i], o);
    OneOrTwo(Block(bs[i].size, true), bs[i], o);
    Replace(bs, i, i + 1, [Block(bs[i].size, true)]);
    Around(bs, i, i + 1);
    if e in LiveFrom(bs[..i], HEAP_START) {
      LiveBounds(bs[..i], HEAP_START, e);
    }
    if e in LiveFrom(bs[i + 1..], o + HEADER + bs[i].size) {
      LiveBounds(bs[i + 1..], o + HEADER + bs[i].size, e);
    }
  }

  // ----- The invariant -----

  lemma SplitSized(total: nat, size: nat)
    requires SoundSize(total) && SoundSize(size) && size <= total
    ensures Sized(Split(total, size))
  {
    if total >= size + HEADER + HEAP_ALIGN {
      Difference(total, size);
    }
  }

  lemma Difference(a: nat, b: nat)
    requires a % HEAP_ALIGN == 0 && b % HEAP_ALIGN == 0 && b + HEADER <= a
    ensures (a - b - HEADER) % HEAP_ALIGN == 0
  {
    var m, n := a / HEAP_ALIGN, b / HEAP_ALIGN;
    assert a - b - HEADER == HEAP_ALIGN * (m - n - 2);
  }

  lemma ConcatSized(a: seq<Block>, b: seq<Block>)
    requires Sized(a) && Sized(b)
    ensures Sized(a + b)
  {
    hide SoundSize;
  }

  lemma PartSized(bs: seq<Block>, i: nat, j: nat)
    requires Sized(bs) && i <= j <= |bs|
    ensures Sized(bs[i..j])
  {
    hide SoundSize;
  }

  lemma TakeInv(bs: seq<Block>, i: nat, size: nat)
    requires Inv(bs) && i < |bs| && Fits(bs[i], size) && size >= HEAP_ALIGN && size % HEAP_ALIGN == 0
    ensures Inv(Take(bs, i, size))
  {
    hide Sized, Coalesced, Take, Split;
    TakeSized(bs, i, size);
    TakeCoalesced(bs, i, size);
  }

  lemma TakeSized(bs: seq<Block>, i: nat, size: nat)
    requires Sized(bs) && i < |bs| && size <= bs[i].size && SoundSize(size)
    ensures Sized(Take(bs, i, size))
  {
    hide SoundSize, Split;
    assert SoundSize(bs[i].size);
    SplitSized(bs[i].size, size);
    PartSized(bs, 0, i);
    PartSized(bs, i + 1, |bs|);
    assert bs[0..i] == bs[..i] && bs[i + 1..|bs|] == bs[i + 1..];
    ConcatSized(bs[..i], Split(bs[i].size, size));
    ConcatSized(bs[..i] + Split(bs[i].size, size), bs[i + 1..]);
  }

  lemma TakeCoalesced(bs: seq<Block>, i: nat, size: nat)
    requires Coalesced(bs) && i < |bs| && Fits(bs[i], size)
    ensures Coalesced(Take(bs, i, size))
  {
  }

  lemma GrowInv(bs: seq<Block>, expand: nat, size: nat)
    requires Inv(bs) && size + HEADER <= expand && size >= HEAP_ALIGN && size % HEAP_ALIGN == 0 && expand % HEAP_ALIGN == 0
    ensures Inv(Grow(bs, expand, size))
  {
    hide Sized, Coalesced, Split;
    Difference(expand, 0);
    SplitSized(expand - HEADER, size);
    ConcatSized(bs, Split(expand - HEADER, size));
    GrowCoalesced(bs, expand, size);
  }

  lemma GrowCoalesced(bs: seq<Block>, expand: nat, size: nat)
    requires Coalesced(bs) && size + HEADER <= expand
    ensures Coalesced(Grow(bs, expand, size))
  {
  }

  /** No two neighbours are both free, except perhaps blocks `i - 1` and `i`. */
  predicate CoalescedBut(bs: seq<Block>, i: nat) {
    forall k :: 0 < k < |bs| && k != i ==> !(bs[k - 1].free && bs[k].free)
  }

  lemma JoinSized(bs: seq<Block>, i: nat)
    requires i + 1 < |bs| && Sized(bs)
    ensures Sized(Join(bs, i))
  {
    AlignedSum(bs[i].size, bs[i + 1].size);
    hide SoundSize;
  }

  lemma MarkInv(bs: seq<Block>, i: nat)
    requires Inv(bs) && i < |bs|
    ensures var m := MarkFree(bs, i);
      Sized(m) && m[i].free && forall k :: 0 < k < |m| && k != i && k != i + 1 ==> !(m[k - 1].free && m[k].free)
  {
    hide SoundSize;
  }

  lemma NextCoalesced(m: seq<Block>, i: nat)
    requires i < |m| && Sized(m) && m[i].free && forall k :: 0 < k < |m| && k != i && k != i + 1 ==> !(m[k - 1].free && m[k].free)
    ensures var n := JoinNext(m, i); i < |n| && Sized(n) && CoalescedBut(n, i) && n[i].free
  {
    hide SoundSize;
    if i + 1 < |m| && m[i + 1].free {
      JoinSized(m, i);
    }
  }

  lemma ReleaseInv(bs: seq<Block>, i: nat)
    requires Inv(bs) && i < |bs|
    ensures Inv(Release(bs, i))
  {
    hide Sized, Coalesced, CoalescedBut, Join, JoinNext;
    var m := MarkFree(bs, i);
    var n := JoinNext(m, i);
    MarkInv(bs, i);
    NextCoalesced(m, i);
    if i > 0 && n[i - 1].free {
      JoinSized(n, i - 1);
      PrevCoalesced(n, i);
    } else {
      AlreadyCoalesced(n, i);
    }
  }

  lemma AlreadyCoalesced(n: seq<Block>, i: nat)
    requires i < |n| && CoalescedBut(n, i) && (i > 0 ==> !n[i - 1].free)
    ensures Coalesced(n)
  {
  }

  lemma PrevCoalesced(n: seq<Block>, i: nat)
    requires 0 < i < |n| && CoalescedBut(n, i) && n[i - 1].free && n[i].free
    ensures Coalesced(Join(n, i - 1))
  {
  }

  /** Freeing what was just allocated from a free block restores the block list exactly. */
  lemma ReleaseUndoesTake(bs: seq<Block>, i: nat, size: nat)
    requires Coalesced(bs) && i < |bs| && Fits(bs[i], size)
    ensures Release(Take(bs, i, size), i) == bs
  {
    var t := Take(bs, i, size);
    var m := MarkFree(t, i);
    assert bs == bs[..i] + [bs[i]] + bs[i + 1..];
    if bs[i].size < size + HEADER + HEAP_ALIGN {
      assert m == bs;
    } else {
      RejoinSplit(bs, i, size);
    }
    NeighboursUsed(bs, i);
  }

  lemma NeighboursUsed(bs: seq<Block>, i: nat)
    requires Coalesced(bs) && i < |bs| && bs[i].free
    ensures i + 1 < |bs| ==> !bs[i + 1].free
    ensures i > 0 ==> !bs[i - 1].free
  {
  }

  lemma RejoinSplit(bs: seq<Block>, i: nat, size: nat)
    requires i < |bs| && Fits(bs[i], size) && bs[i].size >= size + HEADER + HEAP_ALIGN
    ensures JoinNext(MarkFree(Take(bs, i, size), i), i) == bs
  {
    var rest := bs[i].size - size - HEADER;
    assert MarkFree(Take(bs, i, size), i) == bs[..i] + [Block(size, true), Block(rest, true)] + bs[i + 1..];
  }

  // ----- Freeing everything -----

  /** Index of the block whose payload starts at `p`, |bs| when there is none. */
  function IndexOf(bs: seq<Block>, p: nat, from: nat): (i: nat)
    requires from <= |bs|
    ensures from <= i <= |bs| && (i < |bs| ==> Off(bs, i) + HEADER == p)
    ensures forall k :: from <= k < i ==> Off(bs, k) + HEADER != p
    decreases |bs| - from
  {
    if from == |bs| || Off(bs, from) + HEADER == p then from else IndexOf(bs, p, from + 1)
  }

  predicate LiveAt(bs: seq<Block>, p: nat) {
    var i := IndexOf(bs, p, 0);
    i < |bs| && !bs[i].free
  }

  function FreeAt(bs: seq<Block>, p: nat): seq<Block> {
    var i := IndexOf(bs, p, 0);
    if i < |bs| then Release(bs, i) else bs
  }

  function FreeMany(bs: seq<Block>, ps: seq<nat>): seq<Block>
    decreases |ps|
  {
    if ps == [] then bs else FreeMany(FreeAt(bs, ps[0]), ps[1..])
  }

  function Addresses(live: set<(nat, nat)>): set<nat> { set e | e in live :: e.0 }

  /** A used block at index `i` is in the live set, and only its block has its address. */
  lemma LiveEntry(bs: seq<Block>, i: nat)
    requires i < |bs|
    ensures !bs[i].free ==> (Off(bs, i) + HEADER, bs[i].size) in Live(bs)
    ensures forall e :: e in Live(bs) && e.0 == Off(bs, i) + HEADER ==> !bs[i].free && e.1 == bs[i].size
  {
    hide LiveFrom, Extent, Off;
    var o := Off(bs, i);
    assert bs[i..i + 1] == [bs[i]];
    OneOrTwo(bs[i], bs[i], o);
    Around(bs, i, i + 1);
    forall e | e in Live(bs) && e.0 == o + HEADER
      ensures !bs[i].free && e.1 == bs[i].size
    {
      if e in LiveFrom(bs[..i], HEAP_START) {
        LiveBounds(bs[..i], HEAP_START, e);
      } else if e in LiveFrom(bs[i + 1..], o + HEADER + bs[i].size) {
        LiveBounds(bs[i + 1..], o + HEADER + bs[i].size, e);
      }
    }
  }

  lemma {:induction false} LiveHasIndex(bs: seq<Block>, base: nat, e: (nat, nat)) returns (i: nat)
    requires e in LiveFrom(bs, base)
    ensures i < |bs| && !bs[i].free && e == (base + Extent(bs[..i]) + HEADER, bs[i].size)
    decreases |bs|
  {
    if !bs[0].free && e == (base + HEADER, bs[0].size) {
      i := 0;
    } else {
      i := LiveHasIndex(bs[1..], base + HEADER + bs[0].size, e);
      assert bs[..i + 1][1..] == bs[1..][..i];
      i := i + 1;
    }
  }

  /** The addresses of the live set are exactly those of used blocks. */
  lemma LiveAddresses(bs: seq<Block>, p: nat)
    ensures p in Addresses(Live(bs)) <==> LiveAt(bs, p)
  {
    if p in Addresses(Live(bs)) {
      var e :| e in Live(bs) && e.0 == p;
      var i := LiveHasIndex(bs, HEAP_START, e);
      OffIsExtent(bs, i);
      LiveEntry(bs, IndexOf(bs, p, 0));
    }
    if LiveAt(bs, p) {
      LiveEntry(bs, IndexOf(bs, p, 0));
    }
  }

  lemma FreeAtLive(bs: seq<Block>, p: nat)
    requires Inv(bs) && LiveAt(bs, p)
    ensures Inv(FreeAt(bs, p)) && End(FreeAt(bs, p)) == End(bs)
    ensures Addresses(Live(FreeAt(bs, p))) == Addresses(Live(bs)) - {p}
  {
    hide LiveFrom, Extent, Off, Inv, Release;
    var i := IndexOf(bs, p, 0);
    ReleaseLive(bs, i);
    ReleaseInv(bs, i);
    LiveEntry(bs, i);
    var e := (p, bs[i].size);
    assert forall f :: f in Live(bs) && f.0 == p ==> f == e;
    forall a
      ensures a in Addresses(Live(FreeAt(bs, p))) <==> a in Addresses(Live(bs)) - {p}
    {
      if a in Addresses(Live(bs)) && a != p {
        var f :| f in Live(bs) && f.0 == a;
        assert f in Live(FreeAt(bs, p));
      }
    }
  }

  predicate OneFreeBlock(bs: seq<Block>, end: nat) {
    |bs| == 1 && bs[0].free && HEAP_START + HEADER + bs[0].size == end
  }

  lemma AllFreeIsOne(bs: seq<Block>)
    requires Inv(bs) && Live(bs) == {} && End(bs) > HEAP_START
    ensures OneFreeBlock(bs, End(bs))
  {
    assert |bs| > 1 ==> !(bs[0].free && bs[1].free);
    forall i | 0 <= i < |bs|
      ensures bs[i].free
    {
      LiveEntry(bs, i);
    }
    assert |bs| == 1 ==> Off(bs, 1) == Off(bs, 0) + HEADER + bs[0].size;
  }

  /**
    Freeing every live pointer once, in any order, leaves one free block that
    covers the whole heap.
   */
  lemma {:induction false} FreeingAllLeavesOneBlock(bs: seq<Block>, ps: seq<nat>)
    requires Inv(bs) && End(bs) > HEAP_START
    requires forall i, j :: 0 <= i < j < |ps| ==> ps[i] != ps[j]
    requires forall p :: p in ps <==> LiveAt(bs, p)
    ensures OneFreeBlock(FreeMany(bs, ps), End(bs))
    decreases |ps|
  {
    hide LiveFrom, Extent, Off, Inv, Release, LiveAt;
    if ps == [] {
      forall p
        ensures p !in Addresses(Live(bs))
      {
        LiveAddresses(bs, p);
      }
      assert forall e :: e in Live(bs) ==> e.0 in Addresses(Live(bs));
      assert Live(bs) == {};
      AllFreeIsOne(bs);
    } else {
      var next := FreeAt(bs, ps[0]);
      assert ps[0] in ps;
      FreeAtLive(bs, ps[0]);
      forall p
        ensures p in ps[1..] <==> LiveAt(next, p)
      {
        LiveAddresses(bs, p);
        LiveAddresses(next, p);
        assert p in ps <==> p == ps[0] || p in ps[1..];
      }
      FreeingAllLeavesOneBlock(next, ps[1..]);
    }
  }

  // ----- The arithmetic of a request, in 64 bits -----

  /** `(value + align - 1) & ~(align - 1)` for a power of two `align`, in 64-bit arithmetic. */
  function RoundUp(value: nat, align: nat): nat
    requires align > 0
  {
    var v := (value + align - 1) % TWO64;
    v - v % align
  }

  /** The rounded size of a request. */
  function Rounded(size: nat): nat { RoundUp(size, HEAP_ALIGN) }

  /** How much new memory a request asks for when no block fits. */
  function Expansion(size: nat): nat {
    var expand := RoundUp((Rounded(size) + HEADER) % TWO64, PAGE_SIZE);
    if expand < HEAP_MIN_EXPAND then HEAP_MIN_EXPAND else expand
  }

  /** The largest request whose rounding does not wrap around. */
  const MAX_REQUEST: nat := TWO64 - 4128

  /**
    The new memory covers the request and its header exactly up to MAX_REQUEST:
    beyond it the 64-bit sums wrap around and the block would be too small.
   */
  lemma ExpansionCoversIff(size: nat)
    requires 0 < size < TWO64
    ensures (size <= Rounded(size) && Rounded(size) + HEADER <= Expansion(size)) <==> size <= MAX_REQUEST
    ensures size <= MAX_REQUEST ==> Rounded(size) % HEAP_ALIGN == 0 && Rounded(size) >= HEAP_ALIGN
    ensures size <= MAX_REQUEST ==> Expansion(size) % PAGE_SIZE == 0 && Expansion(size) < TWO64
  {
    hide RoundUp;
    RoundTo16(size);
    var need := (Rounded(size) + HEADER) % TWO64;
    RoundToPage(need);
    if size <= MAX_REQUEST {
      assert need == Rounded(size) + HEADER;
    } else if size + HEAP_ALIGN - 1 < TWO64 {
      RoundsToLittle(size);
    }
  }

  lemma RoundTo16(size: nat)
    requires size < TWO64
    ensures var r := RoundUp(size, HEAP_ALIGN);
      r % HEAP_ALIGN == 0 && r < TWO64 && (if size + HEAP_ALIGN - 1 < TWO64 then size <= r < size + HEAP_ALIGN else r == 0)
  {
  }

  lemma RoundToPage(n: nat)
    requires n < TWO64
    ensures var r := RoundUp(n, PAGE_SIZE);
      r % PAGE_SIZE == 0 && r < TWO64 && (if n + PAGE_SIZE - 1 < TWO64 then n <= r < n + PAGE_SIZE else r == 0)
  {
  }

  /** Beyond the bound the need wraps around, or its rounding to pages does. */
  lemma RoundsToLittle(size: nat)
    requires MAX_REQUEST < size && size + HEAP_ALIGN - 1 < TWO64
    ensures Expansion(size) == HEAP_MIN_EXPAND && Rounded(size) > HEAP_MIN_EXPAND
  {
    hide RoundUp;
    RoundTo16(size);
    var need := (Rounded(size) + HEADER) % TWO64;
    RoundToPage(need);
    assert Rounded(size) >= TWO64 - 4112;
  }

  // ----- Runs -----

  /** One call; for an allocation `room` says whether new memory could be had if needed. */
  datatype Call = Malloc(size: nat, room: bool) | Free(p: nat)

  predicate Legal(bs: seq<Block>, c: Call) {
    match c
    case Malloc(size, _) => 0 < size <= MAX_REQUEST
    case Free(p) => LiveAt(bs, p)
  }

  function MallocBlocks(bs: seq<Block>, size: nat, room: bool): seq<Block>
    requires 0 < size <= MAX_REQUEST
  {
    ExpansionCoversIff(size);
    var i := FirstFit(bs, Rounded(size), 0);
    if i < |bs| then Take(bs, i, Rounded(size))
    else if room then Grow(bs, Expansion(size), Rounded(size))
    else bs
  }

  /** The address returned, 0 on failure. */
  function MallocResult(bs: seq<Block>, size: nat, room: bool): nat {
    var i := FirstFit(bs, Rounded(size), 0);
    if i < |bs| || room then Off(bs, i) + HEADER else 0
  }

  lemma RoundedTo16(size: nat)
    requires 0 < size <= MAX_REQUEST
    ensures Rounded(size) == (size + 15) / 16 * 16
  {
  }

  lemma ExpansionPages(size: nat)
    requires 0 < size <= MAX_REQUEST
    ensures var need := Rounded(size) + 32;
      Expansion(size) == if need <= 65536 then 65536 else (need + 4095) / 4096 * 4096
  {
    hide Rounded, RoundUp;
    ExpansionCoversIff(size);
    var need := Rounded(size) + HEADER;
    RoundToPage(need);
    NextMultiple(need, RoundUp(need, PAGE_SIZE));
  }

  lemma NextMultiple(n: nat, r: nat)
    requires r % 4096 == 0 && n <= r < n + 4096
    ensures r == (n + 4095) / 4096 * 4096
  {
  }

  lemma TakeExactly(bs: seq<Block>, i: nat, n: nat)
    requires i < |bs| && n <= bs[i].size
    ensures bs[i].size >= n + 48 ==> Take(bs, i, n) == bs[..i] + [Block(n, false), Block(bs[i].size - n - 32, true)] + bs[i + 1..]
    ensures bs[i].size < n + 48 ==> Take(bs, i, n) == bs[..i] + [Block(bs[i].size, false)] + bs[i + 1..]
  {
    hide Split;
    SplitExactly(bs[i].size, n);
  }

  /** A request takes `n` bytes, its size rounded up to 16, and new memory for it comes in pages, 64 KiB at least. */
  predicate TakesBytes(size: nat, n: nat, expand: nat) {
    n == (size + 15) / 16 * 16 && expand == if n + 32 <= 65536 then 65536 else (n + 4127) / 4096 * 4096
  }

  lemma BytesTaken(size: nat, n: nat, expand: nat)
    requires 0 < size <= MAX_REQUEST && TakesBytes(size, n, expand)
    ensures n == Rounded(size) && expand == Expansion(size) && n + 32 <= expand
  {
    hide Rounded, Expansion;
    RoundedTo16(size);
    ExpansionPages(size);
    ExpansionCoversIff(size);
  }

  lemma SplitExactly(total: nat, n: nat)
    requires n <= total
    ensures total >= n + 48 ==> Split(total, n) == [Block(n, false), Block(total - n - 32, true)]
    ensures total < n + 48 ==> Split(total, n) == [Block(total, false)]
  {
  }

  /**
    An allocation in plain numbers: a block that exceeds the bytes taken by 48 or more is
    cut, and the rest stays free behind a header of 32 bytes; otherwise it is taken whole.
   */
  lemma MallocFits(bs: seq<Block>, size: nat, room: bool, n: nat, expand: nat, i: nat)
    requires 0 < size <= MAX_REQUEST && TakesBytes(size, n, expand) && i == FirstFit(bs, n, 0) < |bs|
    ensures MallocResult(bs, size, room) == Off(bs, i) + 32
    ensures bs[i].size >= n + 48 ==>
      MallocBlocks(bs, size, room) == bs[..i] + [Block(n, false), Block(bs[i].size - n - 32, true)] + bs[i + 1..]
    ensures bs[i].size < n + 48 ==> MallocBlocks(bs, size, room) == bs[..i] + [Block(bs[i].size, false)] + bs[i + 1..]
  {
    hide Rounded, Expansion, Off, FirstFit, Take, Grow, TakesBytes;
    BytesTaken(size, n, expand);
    TakeExactly(bs, i, n);
  }

  /** Where no block fits, new memory is cut by the same rule; without it the call fails. */
  lemma MallocGrows(bs: seq<Block>, size: nat, room: bool, n: nat, expand: nat)
    requires 0 < size <= MAX_REQUEST && TakesBytes(size, n, expand) && FirstFit(bs, n, 0) == |bs|
    ensures !room ==> MallocBlocks(bs, size, room) == bs && MallocResult(bs, size, room) == 0
    ensures room ==> MallocResult(bs, size, room) == Off(bs, |bs|) + 32
    ensures room && expand >= n + 80 ==>
      MallocBlocks(bs, size, room) == bs + [Block(n, false), Block(expand - n - 64, true)]
    ensures room && expand < n + 80 ==> MallocBlocks(bs, size, room) == bs + [Block(expand - 32, false)]
  {
    hide Rounded, Expansion, Off, FirstFit, Split, TakesBytes;
    BytesTaken(size, n, expand);
    SplitExactly(expand - 32, n);
  }

  /** The first header lies at 256 MiB, and each next one behind its predecessor's 32-byte header and payload. */
  lemma HeadersAt(bs: seq<Block>, i: nat)
    requires i < |bs|
    ensures Off(bs, 0) == 0x1000_0000 && Off(bs, i + 1) == Off(bs, i) + 32 + bs[i].size
  {
  }

  function Step(bs: seq<Block>, c: Call): seq<Block>
    requires Legal(bs, c)
  {
    match c
    case Malloc(size, room) => MallocBlocks(bs, size, room)
    case Free(p) => FreeAt(bs, p)
  }

  /** What the callers know: the pointers they hold and how much they asked for. */
  function Held(held: map<nat, nat>, bs: seq<Block>, c: Call): map<nat, nat> {
    match c
    case Malloc(size, room) =>
      var p := MallocResult(bs, size, room);
      if p == 0 then held else held[p := size]
    case Free(p) => held - {p}
  }

  /** Every pointer held is a used block large enough, and nothing else is used. */
  ghost predicate Honest(bs: seq<Block>, held: map<nat, nat>) {
    && held.Keys == Addresses(Live(bs))
    && forall e :: e in Live(bs) ==> e.0 in held && held[e.0] <= e.1
  }

  ghost predicate LegalRun(bs: seq<Block>, cs: seq<Call>)
    decreases |cs|
  {
    cs == [] || (Legal(bs, cs[0]) && LegalRun(Step(bs, cs[0]), cs[1..]))
  }

  ghost function AfterRun(bs: seq<Block>, cs: seq<Call>): seq<Block>
    requires LegalRun(bs, cs)
    decreases |cs|
  {
    if cs == [] then bs else AfterRun(Step(bs, cs[0]), cs[1..])
  }

  ghost function HeldAfter(held: map<nat, nat>, bs: seq<Block>, cs: seq<Call>): map<nat, nat>
    requires LegalRun(bs, cs)
    decreases |cs|
  {
    if cs == [] then held else HeldAfter(Held(held, bs, cs[0]), Step(bs, cs[0]), cs[1..])
  }

  lemma OffPositive(bs: seq<Block>, i: nat)
    requires i <= |bs|
    ensures Off(bs, i) >= HEAP_START
  {
    OffIsExtent(bs, i);
  }

  lemma PageAligned(n: nat)
    requires n % PAGE_SIZE == 0
    ensures n % HEAP_ALIGN == 0
  {
    assert n == 16 * (n / PAGE_SIZE * 256);
  }

  lemma NullNotHeld(bs: seq<Block>, held: map<nat, nat>)
    requires Honest(bs, held)
    ensures 0 !in held
  {
    hide Live;
    LivePositive(bs);
  }

  lemma MallocStep(bs: seq<Block>, size: nat, room: bool, held: map<nat, nat>)
    requires Inv(bs) && Honest(bs, held) && 0 < size <= MAX_REQUEST
    ensures Inv(MallocBlocks(bs, size, room))
    ensures Honest(MallocBlocks(bs, size, room), Held(held, bs, Malloc(size, room)))
    ensures MallocResult(bs, size, room) !in held
  {
    hide Live, Extent, Off, Inv, Take, Grow, Rounded, Expansion, Honest, FirstFit;
    ExpansionCoversIff(size);
    var r := Rounded(size);
    var i := FirstFit(bs, r, 0);
    OffPositive(bs, i);
    NullNotHeld(bs, held);
    if i < |bs| {
      TakeLive(bs, i, r);
      TakeInv(bs, i, r);
      AddHonest(bs, held, Take(bs, i, r), Off(bs, i) + HEADER, Granted(bs[i].size, r), size);
    } else if room {
      GrowLive(bs, Expansion(size), r);
      PageAligned(Expansion(size));
      GrowInv(bs, Expansion(size), r);
      AddHonest(bs, held, Grow(bs, Expansion(size), r), End(bs) + HEADER, Granted(Expansion(size) - HEADER, r), size);
    }
  }

  lemma LivePositive(bs: seq<Block>)
    ensures 0 !in Addresses(Live(bs))
  {
    forall e | e in Live(bs)
      ensures e.0 > 0
    {
      LiveBounds(bs, HEAP_START, e);
    }
  }

  lemma AddHonest(bs: seq<Block>, held: map<nat, nat>, bs': seq<Block>, p: nat, granted: nat, size: nat)
    requires Honest(bs, held) && Live(bs') == Live(bs) + {(p, granted)} && size <= granted
    requires forall e :: e in Live(bs) ==> e.0 != p
    ensures p !in held && Honest(bs', held[p := size])
  {
    hide LiveFrom;
    var held' := held[p := size];
    assert (p, granted) in Live(bs');
    forall a
      ensures a in held'.Keys <==> a in Addresses(Live(bs'))
    {
      if a in held.Keys {
        var e :| e in Live(bs) && e.0 == a;
        assert e in Live(bs');
      }
    }
  }

  lemma FreeStep(bs: seq<Block>, p: nat, held: map<nat, nat>)
    requires Inv(bs) && Honest(bs, held) && LiveAt(bs, p)
    ensures Inv(FreeAt(bs, p)) && Honest(FreeAt(bs, p), held - {p}) && p in held
  {
    hide LiveFrom, Extent, Off, Inv, Release;
    FreeAtLive(bs, p);
    LiveAddresses(bs, p);
    var i := IndexOf(bs, p, 0);
    ReleaseLive(bs, i);
    forall e | e in Live(FreeAt(bs, p))
      ensures e.0 in held - {p} && held[e.0] <= e.1
    {
      assert e.0 in Addresses(Live(FreeAt(bs, p)));
    }
  }

  /** A heap as it is set up, empty or one free block, is honest with nothing held. */
  lemma StartIsHonest()
    ensures Inv([]) && Honest([], map[])
    ensures var bs := [Block(HEAP_MIN_EXPAND - HEADER, true)]; Inv(bs) && Honest(bs, map[])
  {
    var bs := [Block(HEAP_MIN_EXPAND - HEADER, true)];
    assert bs[1..] == [] && LiveFrom([], HEAP_START + HEADER + bs[0].size) == {};
    assert Live(bs) == {};
  }

  /**
    Over any run of allocations and frees of held pointers: the invariant holds,
    the used blocks are exactly the pointers held, and each is as large as asked.
   */
  lemma {:induction false} RunsAreHonest(bs: seq<Block>, held: map<nat, nat>, cs: seq<Call>)
    requires Inv(bs) && Honest(bs, held) && LegalRun(bs, cs)
    ensures Inv(AfterRun(bs, cs)) && Honest(AfterRun(bs, cs), HeldAfter(held, bs, cs))
    decreases |cs|
  {
    hide Inv, Honest, LiveAt, MallocBlocks, MallocResult;
    if cs != [] {
      match cs[0] {
        case Malloc(size, room) => MallocStep(bs, size, room, held);
        case Free(p) => FreeStep(bs, p, held);
      }
      RunsAreHonest(Step(bs, cs[0]), Held(held, bs, cs[0]), cs[1..]);
    }
  }

  /** A block set free leaves a free block at least as large, whatever it merges with. */
  lemma ReleasedFits(bs: seq<Block>, i: nat, size: nat)
    requires i < |bs| && bs[i].size >= size
    ensures FirstFit(Release(bs, i), size, 0) < |Release(bs, i)|
  {
    var cs := Release(bs, i);
    assert (i < |cs| && Fits(cs[i], size)) || (i > 0 && Fits(cs[i - 1], size));
  }

  /**
    Giving back a pointer makes the next request that is not larger succeed without new
    memory: a descriptor's record can be replaced by one of its size.
   */
  lemma FreedServes(bs: seq<Block>, held: map<nat, nat>, p: nat, size: nat)
    requires Inv(bs) && Honest(bs, held) && p in held && 0 < size <= held[p] && size <= MAX_REQUEST
    ensures MallocResult(FreeAt(bs, p), size, false) != 0
  {
    hide LiveFrom, Extent, Off, Release, Rounded, FirstFit;
    LiveAddresses(bs, p);
    var i := IndexOf(bs, p, 0);
    LiveEntry(bs, i);
    RoundedWithin(size, bs[i].size);
    ReleasedFits(bs, i, Rounded(size));
    OffPositive(FreeAt(bs, p), FirstFit(FreeAt(bs, p), Rounded(size), 0));
  }

  lemma RoundedWithin(size: nat, granted: nat)
    requires 0 < size <= granted && size <= MAX_REQUEST && granted % HEAP_ALIGN == 0
    ensures Rounded(size) <= granted
  {
  }

  /** In an honest state the payloads of two held pointers do not overlap. */
  lemma HeldDisjoint(bs: seq<Block>, held: map<nat, nat>, p: nat, q: nat)
    requires Honest(bs, held) && p in held && q in held && p != q
    ensures p + held[p] <= q || q + held[q] <= p
    ensures Inv(bs) ==> p % HEAP_ALIGN == 0
  {
    hide LiveFrom, Extent, Off;
    LiveAddresses(bs, p);
    LiveAddresses(bs, q);
    var i, j := IndexOf(bs, p, 0), IndexOf(bs, q, 0);
    LiveEntry(bs, i);
    LiveEntry(bs, j);
    BlocksApart(bs, i, j);
    if Inv(bs) {
      PayloadAligned(bs, i);
    }
  }
}
