/**
  The doubly linked list of block headers that represents a block list, and
  the pointer updates that split and join blocks.
 */
module HeapList {
  import opened HeapSpec

  /** The header record in memory; 0 is the null pointer. */
  datatype Header = Header(size: nat, free: bool, next: nat, prev: nat)

  function NextOf(bs: seq<Block>, i: nat): nat
    requires i < |bs|
  {
    if i + 1 < |bs| then Off(bs, i + 1) else 0
  }

  function PrevOf(bs: seq<Block>, i: nat): nat
    requires i < |bs|
  {
    if i > 0 then Off(bs, i - 1) else 0
  }

  function Node(bs: seq<Block>, i: nat): Header
    requires i < |bs|
  {
    Header(bs[i].size, bs[i].free, NextOf(bs, i), PrevOf(bs, i))
  }

  function HeadOf(bs: seq<Block>): nat { if bs == [] then 0 else HEAP_START }

  predicate NodeAt(hs: map<nat, Header>, bs: seq<Block>, i: nat)
    requires i < |bs|
  {
    Off(bs, i) in hs && hs[Off(bs, i)] == Node(bs, i)
  }

  /** Every block has its header at its address, with both links right. */
  ghost predicate Linked(hs: map<nat, Header>, bs: seq<Block>) {
    forall i :: 0 <= i < |bs| ==> NodeAt(hs, bs, i)
  }

  lemma OffDistinct(bs: seq<Block>, j: nat, k: nat)
    requires j <= |bs| && k <= |bs|
    ensures Off(bs, j) >= HEAP_START && Off(bs, k) >= HEAP_START
    ensures j != k ==> Off(bs, j) != Off(bs, k)
    ensures j < k ==> Off(bs, j) + HEADER + bs[j].size <= Off(bs, k)
  {
    OffPositive(bs, j);
    OffPositive(bs, k);
    if j < k {
      OffMonotone(bs, j, k);
    } else if k < j {
      OffMonotone(bs, k, j);
    }
  }

  /** Block `i` cut in two. */
  function Cut(bs: seq<Block>, i: nat, size: nat): seq<Block>
    requires i < |bs| && size + HEADER <= bs[i].size
  {
    bs[..i] + [Block(size, bs[i].free), Block(bs[i].size - size - HEADER, true)] + bs[i + 1..]
  }

  lemma CutOff(bs: seq<Block>, i: nat, size: nat, k: nat)
    requires i < |bs| && size + HEADER <= bs[i].size && k <= |bs|
    ensures Off(Cut(bs, i, size), if k <= i then k else k + 1) == Off(bs, k)
    ensures Off(Cut(bs, i, size), i + 1) == Off(bs, i) + HEADER + size
  {
    var bs' := Cut(bs, i, size);
    OffPrefix(bs, bs', i);
    if k <= i {
      assert bs[..k] == bs'[..k];
      OffPrefix(bs, bs', k);
    } else {
      assert Off(bs', i + 2) == Off(bs, i + 1);
      assert bs[i + 1..i + 1 + (k - (i + 1))] == bs'[i + 2..i + 2 + (k - (i + 1))];
      OffSuffix(bs, i + 1, bs', i + 2, k - (i + 1));
    }
  }

  lemma JoinOff(bs: seq<Block>, i: nat, k: nat)
    requires i + 1 < |bs| && k < |bs|
    ensures Off(Join(bs, i), k) == Off(bs, if k <= i then k else k + 1)
  {
    var bs' := Join(bs, i);
    OffPrefix(bs, bs', i);
    if k <= i {
      assert bs[..k] == bs'[..k];
      OffPrefix(bs, bs', k);
    } else {
      assert Off(bs', i + 1) == Off(bs, i + 2);
      assert bs[i + 2..i + 2 + (k - (i + 1))] == bs'[i + 1..i + 1 + (k - (i + 1))];
      OffSuffix(bs, i + 2, bs', i + 1, k - (i + 1));
    }
  }

  lemma {:induction false} SameSizes(a: seq<Block>, b: seq<Block>, k: nat)
    requires k <= |a| && k <= |b| && forall j :: 0 <= j < k ==> a[j].size == b[j].size
    ensures Off(a, k) == Off(b, k)
  {
    if k > 0 {
      SameSizes(a, b, k - 1);
    }
  }

  function SetFlag(bs: seq<Block>, i: nat, free: bool): seq<Block>
    requires i < |bs|
  {
    bs[i := Block(bs[i].size, free)]
  }

  lemma FlagLinked(hs: map<nat, Header>, bs: seq<Block>, i: nat, free: bool)
    requires Linked(hs, bs) && i < |bs|
    ensures NodeAt(hs, bs, i)
    ensures Linked(hs[Off(bs, i) := hs[Off(bs, i)].(free := free)], SetFlag(bs, i, free))
    ensures forall k :: 0 <= k <= |bs| ==> Off(SetFlag(bs, i, free), k) == Off(bs, k)
  {
    hide Off;
    var bs' := SetFlag(bs, i, free);
    assert NodeAt(hs, bs, i);
    var hs' := hs[Off(bs, i) := hs[Off(bs, i)].(free := free)];
    forall k | 0 <= k <= |bs|
      ensures Off(bs', k) == Off(bs, k)
    {
      SameSizes(bs, bs', k);
    }
    forall k | 0 <= k < |bs'|
      ensures NodeAt(hs', bs', k)
    {
      assert NodeAt(hs, bs, k);
      OffDistinct(bs, i, k);
    }
  }

  /** The stores of a split: the new header, the back link of the next block, the block itself. */
  function SplitStores(hs: map<nat, Header>, block: nat, size: nat): map<nat, Header>
    requires block in hs && size + HEADER <= hs[block].size
  {
    var b := hs[block];
    var n := block + HEADER + size;
    var hs1 := hs[n := Header(b.size - size - HEADER, true, b.next, block)];
    var hs2 := if b.next != 0 && b.next in hs1 then hs1[b.next := hs1[b.next].(prev := n)] else hs1;
    hs2[block := b.(size := size, next := n)]
  }

  lemma SplitNode(hs: map<nat, Header>, bs: seq<Block>, i: nat, size: nat, k: nat)
    requires Linked(hs, bs) && i < |bs| && size + HEADER <= bs[i].size && k <= |bs|
    ensures NodeAt(hs, bs, i) && (i + 1 < |bs| ==> NodeAt(hs, bs, i + 1))
    ensures NodeAt(SplitStores(hs, Off(bs, i), size), Cut(bs, i, size), k)
  {
    hide Off, Linked;
    assert NodeAt(hs, bs, i) && (i + 1 < |bs| ==> NodeAt(hs, bs, i + 1)) by { LinkedAt(hs, bs, i); }
    CutOff(bs, i, size, i);
    OffDistinct(bs, i, i + 1);
    NewHeaderInside(bs, i, size);
    if k < i {
      LinkedAt(hs, bs, k);
      OffDistinct(bs, k, i);
      OffDistinct(bs, k, i + 1);
      CutOff(bs, i, size, k);
      CutOff(bs, i, size, k + 1);
      if k > 0 { CutOff(bs, i, size, k - 1); }
    } else if k == i {
      if k > 0 { CutOff(bs, i, size, k - 1); }
    } else if k == i + 1 {
      if k < |bs| { CutOff(bs, i, size, k); }
    } else {
      LinkedAt(hs, bs, k - 1);
      OffDistinct(bs, k - 1, i);
      OffDistinct(bs, i + 1, k - 1);
      CutOff(bs, i, size, k - 1);
      if k < |bs| { CutOff(bs, i, size, k); }
      if k > i + 2 { CutOff(bs, i, size, k - 2); }
    }
  }

  lemma LinkedAt(hs: map<nat, Header>, bs: seq<Block>, i: nat)
    requires Linked(hs, bs) && i < |bs|
    ensures NodeAt(hs, bs, i) && (i + 1 < |bs| ==> NodeAt(hs, bs, i + 1)) && (i > 0 ==> NodeAt(hs, bs, i - 1))
  {
  }

  /** The header a split creates lies strictly inside the old block. */
  lemma NewHeaderInside(bs: seq<Block>, i: nat, size: nat)
    requires i < |bs| && size + HEADER <= bs[i].size
    ensures Off(bs, i) < Off(bs, i) + HEADER + size < Off(bs, i + 1)
    ensures forall k :: 0 <= k <= |bs| ==> Off(bs, k) != Off(bs, i) + HEADER + size
  {
    forall k | 0 <= k <= |bs|
      ensures Off(bs, k) != Off(bs, i) + HEADER + size
    {
      OffDistinct(bs, k, i);
      OffDistinct(bs, i, k);
    }
  }

  lemma SplitLinked(hs: map<nat, Header>, bs: seq<Block>, i: nat, size: nat)
    requires Linked(hs, bs) && i < |bs| && size + HEADER <= bs[i].size
    ensures NodeAt(hs, bs, i) && (i + 1 < |bs| ==> NodeAt(hs, bs, i + 1))
    ensures Linked(SplitStores(hs, Off(bs, i), size), Cut(bs, i, size))
  {
    SplitNode(hs, bs, i, size, i);
    forall k | 0 <= k < |Cut(bs, i, size)|
      ensures NodeAt(SplitStores(hs, Off(bs, i), size), Cut(bs, i, size), k)
    {
      SplitNode(hs, bs, i, size, k);
    }
  }

  /** The stores that make the block at `a` absorb its successor. */
  function JoinStores(hs: map<nat, Header>, a: nat): map<nat, Header>
    requires a in hs && hs[a].next in hs
  {
    var n := hs[a].next;
    var after := hs[n].next;
    var hs1 := hs[a := hs[a].(size := hs[a].size + HEADER + hs[n].size, next := after)];
    if after != 0 && after in hs1 then hs1[after := hs1[after].(prev := a)] else hs1
  }

  lemma JoinNode(hs: map<nat, Header>, bs: seq<Block>, i: nat, k: nat)
    requires Linked(hs, bs) && i + 1 < |bs| && k + 1 < |bs|
    ensures NodeAt(hs, bs, i) && NodeAt(hs, bs, i + 1) && (i + 2 < |bs| ==> NodeAt(hs, bs, i + 2))
    ensures NodeAt(JoinStores(hs, Off(bs, i)), Join(bs, i), k)
  {
    hide Off, Linked;
    LinkedAt(hs, bs, i);
    LinkedAt(hs, bs, i + 1);
    OffDistinct(bs, i, i + 1);
    OffDistinct(bs, i, i + 2);
    JoinOff(bs, i, k);
    if k > 0 { JoinOff(bs, i, k - 1); }
    if k + 2 < |bs| { JoinOff(bs, i, k + 1); }
    var j := if k <= i then k else k + 1;
    LinkedAt(hs, bs, j);
    OffDistinct(bs, j, i);
    OffDistinct(bs, j, i + 2);
  }

  lemma JoinLinked(hs: map<nat, Header>, bs: seq<Block>, i: nat)
    requires Linked(hs, bs) && i + 1 < |bs|
    ensures NodeAt(hs, bs, i) && NodeAt(hs, bs, i + 1) && (i + 2 < |bs| ==> NodeAt(hs, bs, i + 2))
    ensures Linked(JoinStores(hs, Off(bs, i)), Join(bs, i))
  {
    JoinNode(hs, bs, i, 0);
    forall k | 0 <= k < |Join(bs, i)|
      ensures NodeAt(JoinStores(hs, Off(bs, i)), Join(bs, i), k)
    {
      JoinNode(hs, bs, i, k);
    }
  }

  /** The stores that hang a new block behind the last one. */
  function AppendStores(hs: map<nat, Header>, bs: seq<Block>, b: Block): map<nat, Header> {
    var n := End(bs);
    if bs == [] then hs[n := Header(b.size, b.free, 0, 0)]
    else
      var last := Off(bs, |bs| - 1);
      var hs1 := hs[n := Header(b.size, b.free, 0, last)];
      if last in hs then hs1[last := hs[last].(next := n)] else hs1
  }

  lemma AppendLinked(hs: map<nat, Header>, bs: seq<Block>, b: Block)
    requires Linked(hs, bs)
    ensures bs != [] ==> NodeAt(hs, bs, |bs| - 1)
    ensures Linked(AppendStores(hs, bs, b), bs + [b])
    ensures Off(bs + [b], |bs|) == End(bs)
  {
    hide Off;
    var bs' := bs + [b];
    if bs != [] {
      LinkedAt(hs, bs, |bs| - 1);
      OffDistinct(bs, |bs| - 1, |bs|);
    }
    OffPrefix(bs, bs', |bs|);
    forall k | 0 <= k < |bs'|
      ensures NodeAt(AppendStores(hs, bs, b), bs', k)
    {
      OffPrefix(bs, bs', k);
      OffDistinct(bs, k, |bs|);
      if k > 0 { OffPrefix(bs, bs', k - 1); }
      if k < |bs| {
        LinkedAt(hs, bs, k);
        OffPrefix(bs, bs', k + 1);
        OffDistinct(bs, k, |bs| - 1);
      }
    }
  }
}
