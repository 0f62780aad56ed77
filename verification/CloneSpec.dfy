/**
  What it means to clone an address space, page by page, and how the relation
  is built up over intervals of page numbers.
 */
module CloneSpec {
  import opened PageTables
  import opened Paging

  /** Only new tables, in frames that were free; old places and links stay. */
  ghost predicate Grows(a: Vm, b: Vm) {
    && (forall f :: f in a.place ==> f in b.place && b.place[f] == a.place[f])
    && (forall f :: f in b.place && f !in a.place ==> f !in a.used)
    && a.used <= b.used
    && LinksKept(a, b)
  }

  /** No root but `dst` reaches table `t`. */
  ghost predicate Private(v: Vm, t: Frame, dst: Frame) {
    t in v.place && forall r :: IsRoot(v.place, r) && r != dst ==> !Touches(v.ts, v.place, r, t)
  }

  ghost predicate PrivacyKept(a: Vm, b: Vm, dst: Frame) {
    forall t :: Private(a, t, dst) ==> Private(b, t, dst)
  }

  ghost predicate DataKept(used: set<Frame>, d: map<Frame, Bytes>, e: map<Frame, Bytes>) {
    forall f :: f in used ==> Content(e, f) == Content(d, f)
  }

  /** Outside the window, only `dst` changes, and only at page numbers in [lo, hi). */
  ghost predicate OnlyRange(a: Vm, b: Vm, dst: Frame, lo: nat, hi: nat) {
    forall r, q :: IsRoot(a.place, r) && !IsWindow(q) && !(r == dst && lo <= Num(q) < hi) ==>
      Walk(b.ts, r, q) == Walk(a.ts, r, q)
  }

  /** What every part of a clone keeps, whether it succeeds or fails. */
  ghost predicate CloneStep(a: Vm, da: map<Frame, Bytes>, b: Vm, db: map<Frame, Bytes>, dst: Frame, lo: nat, hi: nat) {
    Grows(a, b) && OnlyRange(a, b, dst, lo, hi) && PrivacyKept(a, b, dst) && DataKept(a.used, da, db)
  }

  predicate UserPage(m: Mapping) { m.Mapped? && m.user }

  /**
    The clone `dst` of `src` at page `q`. A page open to user mode has moved to a
    frame that was free, with the same bytes, the same leaf flags and the same
    permissions, under a page table only the clone reaches. Any other page
    translates as in the source.
   */
  ghost predicate CopiedPage(v0: Vm, d0: map<Frame, Bytes>, v: Vm, d: map<Frame, Bytes>, src: Frame, dst: Frame, q: Page) {
    var w0, w := Walk(v0.ts, src, q), Walk(v.ts, dst, q);
    if UserPage(w0) then
      && w.Mapped? && w == w0.(frame := w.frame)
      && w.frame !in v0.used && w.frame in v.used && w.frame !in v.ts
      && Content(d, w.frame) == Content(d0, w0.frame)
      && HasPt(v.ts, dst, q) && Private(v, PtOf(v.ts, dst, q), dst)
    else w == w0
  }

  ghost predicate CopiedRange(v0: Vm, d0: map<Frame, Bytes>, v: Vm, d: map<Frame, Bytes>, src: Frame, dst: Frame, lo: nat, hi: nat) {
    forall q :: lo <= Num(q) < hi && !IsWindow(q) ==> CopiedPage(v0, d0, v, d, src, dst, q)
  }

  /** The frame behind a page, 0 when it is unmapped. */
  function FrameAt(ts: Tables, r: Frame, q: Page): Frame {
    var w := Walk(ts, r, q);
    if w.Mapped? then w.frame else 0
  }

  ghost predicate CopiedUser(ts0: Tables, src: Frame, q: Page, lo: nat, hi: nat) {
    lo <= Num(q) < hi && !IsWindow(q) && UserPage(Walk(ts0, src, q))
  }

  /** Two user pages never share a new frame. */
  ghost predicate DistinctRange(v0: Vm, v: Vm, src: Frame, dst: Frame, lo: nat, hi: nat) {
    forall p, q :: CopiedUser(v0.ts, src, p, lo, hi) && CopiedUser(v0.ts, src, q, lo, hi) && p != q ==>
      FrameAt(v.ts, dst, p) != FrameAt(v.ts, dst, q)
  }

  /** User pages of `src` lie in used frames that hold no tables; frame numbers have 40 bits. */
  ghost predicate UserFramesOk(v: Vm, src: Frame) {
    forall q :: UserPage(Walk(v.ts, src, q)) ==>
      Walk(v.ts, src, q).frame in v.used && Walk(v.ts, src, q).frame !in v.ts
      && Walk(v.ts, src, q).frame < 0x100_0000_0000
  }

  // ----- Composition -----

  lemma GrowsTransitive(a: Vm, b: Vm, c: Vm)
    requires Good(a) && Good(b) && Grows(a, b) && Grows(b, c)
    ensures Grows(a, c)
  {
    forall f, i: Idx | f in a.place && IsLink(a.place[f], At(a.ts, f, i))
      ensures At(c.ts, f, i) == At(a.ts, f, i)
    {
      assert At(b.ts, f, i) == At(a.ts, f, i);
      assert IsLink(b.place[f], At(b.ts, f, i));
    }
  }

  lemma RangeTransitive(a: Vm, b: Vm, c: Vm, dst: Frame, lo: nat, mid: nat, hi: nat)
    requires Grows(a, b) && lo <= mid <= hi
    requires OnlyRange(a, b, dst, lo, mid) && OnlyRange(b, c, dst, mid, hi)
    ensures OnlyRange(a, c, dst, lo, hi)
  {
    forall r, q | IsRoot(a.place, r) && !IsWindow(q) && !(r == dst && lo <= Num(q) < hi)
      ensures Walk(c.ts, r, q) == Walk(a.ts, r, q)
    {
      assert IsRoot(b.place, r);
      assert Walk(b.ts, r, q) == Walk(a.ts, r, q);
    }
  }

  lemma StepTransitive(a: Vm, da: map<Frame, Bytes>, b: Vm, db: map<Frame, Bytes>, c: Vm, dc: map<Frame, Bytes>,
                       dst: Frame, lo: nat, mid: nat, hi: nat)
    requires Good(a) && Good(b) && lo <= mid <= hi
    requires CloneStep(a, da, b, db, dst, lo, mid) && CloneStep(b, db, c, dc, dst, mid, hi)
    ensures CloneStep(a, da, c, dc, dst, lo, hi)
  {
    GrowsTransitive(a, b, c);
    RangeTransitive(a, b, c, dst, lo, mid, hi);
  }

  lemma StepRefl(a: Vm, da: map<Frame, Bytes>, dst: Frame, lo: nat, hi: nat)
    ensures CloneStep(a, da, a, da, dst, lo, hi)
  {
  }

  lemma StepWider(a: Vm, da: map<Frame, Bytes>, b: Vm, db: map<Frame, Bytes>, dst: Frame, lo: nat, hi: nat, lo': nat, hi': nat)
    requires CloneStep(a, da, b, db, dst, lo, hi)
    requires lo == hi || (lo' <= lo && hi <= hi')
    ensures CloneStep(a, da, b, db, dst, lo', hi')
  {
    forall r, q | IsRoot(a.place, r) && !IsWindow(q) && !(r == dst && lo' <= Num(q) < hi')
      ensures Walk(b.ts, r, q) == Walk(a.ts, r, q)
    {
    }
  }

  lemma KeepPage(v0: Vm, d0: map<Frame, Bytes>, v1: Vm, d1: map<Frame, Bytes>, v2: Vm, d2: map<Frame, Bytes>,
                 src: Frame, dst: Frame, q: Page, lo: nat, hi: nat)
    requires Good(v1) && IsRoot(v1.place, dst) && !IsWindow(q) && !(lo <= Num(q) < hi)
    requires Good(v2) && CloneStep(v1, d1, v2, d2, dst, lo, hi)
    requires CopiedPage(v0, d0, v1, d1, src, dst, q)
    ensures CopiedPage(v0, d0, v2, d2, src, dst, q)
  {
    if UserPage(Walk(v0.ts, src, q)) {
      HasPtKept(v1, v2, dst, q);
    }
  }

  lemma RebasePage(v0: Vm, d0: map<Frame, Bytes>, v1: Vm, d1: map<Frame, Bytes>, v2: Vm, d2: map<Frame, Bytes>,
                   src: Frame, dst: Frame, q: Page, lo: nat, mid: nat)
    requires IsRoot(v0.place, src) && src != dst && UserFramesOk(v0, src) && !IsWindow(q)
    requires CloneStep(v0, d0, v1, d1, dst, lo, mid)
    requires CopiedPage(v1, d1, v2, d2, src, dst, q)
    ensures CopiedPage(v0, d0, v2, d2, src, dst, q)
  {
    assert Walk(v1.ts, src, q) == Walk(v0.ts, src, q);
  }

  lemma AppendDistinct(v0: Vm, d0: map<Frame, Bytes>, v1: Vm, d1: map<Frame, Bytes>, v2: Vm, d2: map<Frame, Bytes>,
                       src: Frame, dst: Frame, lo: nat, mid: nat, hi: nat)
    requires IsRoot(v0.place, src) && IsRoot(v1.place, dst) && src != dst && lo <= mid <= hi
    requires CloneStep(v0, d0, v1, d1, dst, lo, mid) && CloneStep(v1, d1, v2, d2, dst, mid, hi)
    requires CopiedRange(v0, d0, v1, d1, src, dst, lo, mid) && DistinctRange(v0, v1, src, dst, lo, mid)
    requires CopiedRange(v1, d1, v2, d2, src, dst, mid, hi) && DistinctRange(v1, v2, src, dst, mid, hi)
    ensures DistinctRange(v0, v2, src, dst, lo, hi)
  {
    forall p, q | CopiedUser(v0.ts, src, p, lo, hi) && CopiedUser(v0.ts, src, q, lo, hi) && p != q
      ensures FrameAt(v2.ts, dst, p) != FrameAt(v2.ts, dst, q)
    {
      OldOrNew(v0, d0, v1, d1, v2, d2, src, dst, lo, mid, hi, p);
      OldOrNew(v0, d0, v1, d1, v2, d2, src, dst, lo, mid, hi, q);
      if Num(p) < mid && Num(q) < mid {
        assert CopiedUser(v0.ts, src, p, lo, mid) && CopiedUser(v0.ts, src, q, lo, mid);
      } else if Num(p) >= mid && Num(q) >= mid {
        assert CopiedUser(v1.ts, src, p, mid, hi) && CopiedUser(v1.ts, src, q, mid, hi);
      }
    }
  }

  /** A new frame is used already at the middle state exactly when its page is in the first part. */
  lemma OldOrNew(v0: Vm, d0: map<Frame, Bytes>, v1: Vm, d1: map<Frame, Bytes>, v2: Vm, d2: map<Frame, Bytes>,
                 src: Frame, dst: Frame, lo: nat, mid: nat, hi: nat, p: Page)
    requires IsRoot(v0.place, src) && IsRoot(v1.place, dst) && src != dst && lo <= mid <= hi
    requires CloneStep(v0, d0, v1, d1, dst, lo, mid) && CloneStep(v1, d1, v2, d2, dst, mid, hi)
    requires CopiedRange(v0, d0, v1, d1, src, dst, lo, mid)
    requires CopiedRange(v1, d1, v2, d2, src, dst, mid, hi)
    requires CopiedUser(v0.ts, src, p, lo, hi)
    ensures Walk(v1.ts, src, p) == Walk(v0.ts, src, p)
    ensures Num(p) < mid ==> FrameAt(v2.ts, dst, p) == FrameAt(v1.ts, dst, p)
    ensures FrameAt(v2.ts, dst, p) in v1.used <==> Num(p) < mid
  {
    assert Walk(v1.ts, src, p) == Walk(v0.ts, src, p);
    if Num(p) < mid {
      assert CopiedPage(v0, d0, v1, d1, src, dst, p);
      assert Walk(v2.ts, dst, p) == Walk(v1.ts, dst, p);
    } else {
      assert CopiedPage(v1, d1, v2, d2, src, dst, p);
    }
  }

  /** Two adjacent parts of a clone make one. */
  lemma AppendRange(v0: Vm, d0: map<Frame, Bytes>, v1: Vm, d1: map<Frame, Bytes>, v2: Vm, d2: map<Frame, Bytes>,
                    src: Frame, dst: Frame, lo: nat, mid: nat, hi: nat)
    requires Good(v0) && Good(v1) && Good(v2) && UserFramesOk(v0, src)
    requires IsRoot(v0.place, src) && IsRoot(v0.place, dst) && src != dst && lo <= mid <= hi
    requires CloneStep(v0, d0, v1, d1, dst, lo, mid) && CloneStep(v1, d1, v2, d2, dst, mid, hi)
    requires CopiedRange(v0, d0, v1, d1, src, dst, lo, mid) && DistinctRange(v0, v1, src, dst, lo, mid)
    requires CopiedRange(v1, d1, v2, d2, src, dst, mid, hi) && DistinctRange(v1, v2, src, dst, mid, hi)
    ensures CloneStep(v0, d0, v2, d2, dst, lo, hi)
    ensures CopiedRange(v0, d0, v2, d2, src, dst, lo, hi) && DistinctRange(v0, v2, src, dst, lo, hi)
  {
    hide CopiedPage, DistinctRange, UserFramesOk;
    StepTransitive(v0, d0, v1, d1, v2, d2, dst, lo, mid, hi);
    AppendDistinct(v0, d0, v1, d1, v2, d2, src, dst, lo, mid, hi);
    forall q | lo <= Num(q) < hi && !IsWindow(q)
      ensures CopiedPage(v0, d0, v2, d2, src, dst, q)
    {
      if Num(q) < mid {
        KeepPage(v0, d0, v1, d1, v2, d2, src, dst, q, mid, hi);
      } else {
        RebasePage(v0, d0, v1, d1, v2, d2, src, dst, q, lo, mid);
      }
    }
  }
}
