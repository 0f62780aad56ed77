/**
  The stores a clone makes into tables that only the clone reaches, and the
  interval of page numbers that each of them can affect.
 */
module CloneStores {
  import opened PageTables
  import opened Paging
  import opened CloneSpec

  /** How many pages one entry of a table at `pl` covers. */
  function Size(pl: Place): nat {
    match pl
    case Root => 0x800_0000
    case Pdpt(_) => 0x4_0000
    case Pd(_, _) => 512
    case Pt(_, _, _) => 1
  }

  /** The first page number under a table at `pl`. */
  function Base(pl: Place): nat {
    match pl
    case Root => 0
    case Pdpt(a) => a * 0x800_0000
    case Pd(a, b) => a * 0x800_0000 + b * 0x4_0000
    case Pt(a, b, c) => a * 0x800_0000 + b * 0x4_0000 + c * 512
  }

  function Lo(pl: Place, i: nat): nat { Base(pl) + i * Size(pl) }

  /** Page `q` is translated through entry `i` of a table at `pl`. */
  predicate Under(pl: Place, i: Idx, q: Page) {
    match pl
    case Root => q.i4 == i
    case Pdpt(a) => q.i4 == a && q.i3 == i
    case Pd(a, b) => q.i4 == a && q.i3 == b && q.i2 == i
    case Pt(a, b, c) => q.i4 == a && q.i3 == b && q.i2 == c && q.i1 == i
  }

  /** Two-digit numbers in base `m`: an interval inside the block of first digit `a`. */
  lemma FirstDigit(a: nat, rl: nat, size: nat, x: nat, r: nat, m: nat)
    requires rl + size <= m && r < m
    ensures a * m + rl <= x * m + r < a * m + rl + size <==> a == x && rl <= r < rl + size
  {
    if x > a {
      MulMonotone(a + 1, x, m);
    } else if x < a {
      MulMonotone(x + 1, a, m);
    }
  }

  lemma MulMonotone(x: nat, y: nat, m: nat)
    requires x <= y
    ensures x * m <= y * m
  {
  }

  lemma UnderIsInterval(pl: Place, i: Idx, q: Page)
    ensures Under(pl, i, q) <==> Lo(pl, i) <= Num(q) < Lo(pl, i) + Size(pl)
    ensures Lo(pl, i) + Size(pl) == Lo(pl, i + 1)
  {
    hide Under, Lo, Num;
    NextLo(pl, i);
    match pl {
      case Root => UnderRoot(i, q);
      case Pdpt(a) => UnderPointers(a, i, q);
      case Pd(a, b) => UnderDirectory(a, b, i, q);
      case Pt(a, b, c) => UnderTable(a, b, c, i, q);
    }
  }

  lemma NextLo(pl: Place, i: nat)
    ensures Lo(pl, i) + Size(pl) == Lo(pl, i + 1)
  {
    match pl {
      case Root => assert Lo(pl, i) == Base(pl) + i * 0x800_0000;
      case Pdpt(_) => assert Lo(pl, i) == Base(pl) + i * 0x4_0000;
      case Pd(_, _) => assert Lo(pl, i) == Base(pl) + i * 512;
      case Pt(_, _, _) => assert Lo(pl, i) == Base(pl) + i;
    }
  }

  lemma UnderRoot(i: Idx, q: Page)
    ensures Under(Root, i, q) <==> Lo(Root, i) <= Num(q) < Lo(Root, i) + Size(Root)
  {
    FirstDigit(i, 0, 0x800_0000, q.i4, q.i3 * 0x4_0000 + q.i2 * 512 + q.i1, 0x800_0000);
  }

  lemma UnderPointers(a: Idx, i: Idx, q: Page)
    ensures Under(Pdpt(a), i, q) <==> Lo(Pdpt(a), i) <= Num(q) < Lo(Pdpt(a), i) + Size(Pdpt(a))
  {
    FirstDigit(a, i * 0x4_0000, 0x4_0000, q.i4, q.i3 * 0x4_0000 + q.i2 * 512 + q.i1, 0x800_0000);
    FirstDigit(i, 0, 0x4_0000, q.i3, q.i2 * 512 + q.i1, 0x4_0000);
  }

  lemma UnderDirectory(a: Idx, b: Idx, i: Idx, q: Page)
    ensures Under(Pd(a, b), i, q) <==> Lo(Pd(a, b), i) <= Num(q) < Lo(Pd(a, b), i) + Size(Pd(a, b))
  {
    FirstDigit(a, b * 0x4_0000 + i * 512, 512, q.i4, q.i3 * 0x4_0000 + q.i2 * 512 + q.i1, 0x800_0000);
    FirstDigit(b, i * 512, 512, q.i3, q.i2 * 512 + q.i1, 0x4_0000);
    FirstDigit(i, 0, 512, q.i2, q.i1, 512);
  }

  lemma UnderTable(a: Idx, b: Idx, c: Idx, i: Idx, q: Page)
    ensures Under(Pt(a, b, c), i, q) <==> Lo(Pt(a, b, c), i) <= Num(q) < Lo(Pt(a, b, c), i) + Size(Pt(a, b, c))
  {
    FirstDigit(a, b * 0x4_0000 + c * 512 + i, 1, q.i4, q.i3 * 0x4_0000 + q.i2 * 512 + q.i1, 0x800_0000);
    FirstDigit(b, c * 512 + i, 1, q.i3, q.i2 * 512 + q.i1, 0x4_0000);
    FirstDigit(c, i, 1, q.i2, q.i1, 512);
  }

  lemma ChildBase(pl: Place, i: Idx)
    requires !pl.Pt?
    ensures Base(Child(pl, i)) == Lo(pl, i) && Lo(Child(pl, i), 512) == Lo(pl, i + 1)
  {
  }

  /** The links from `r` to table `t` all carry the user bit. */
  predicate OpenTo(v: Vm, r: Frame, t: Frame)
    requires t in v.place
  {
    Touches(v.ts, v.place, r, t) &&
    match v.place[t]
    case Root => true
    case Pdpt(a) => At(v.ts, r, a).flags.user
    case Pd(a, b) => PdUser(v.ts, r, Page(a, b, 0, 0))
    case Pt(a, b, c) => UpperUser(v.ts, r, Page(a, b, c, 0))
  }

  lemma OpenKept(a: Vm, b: Vm, r: Frame, t: Frame)
    requires Good(a) && Good(b) && Grows(a, b) && IsRoot(a.place, r) && t in a.place && OpenTo(a, r, t)
    ensures t in b.place && OpenTo(b, r, t)
  {
    match a.place[t] {
      case Root =>
      case Pdpt(x) =>
        EntryAt(a, r, x);
      case Pd(x, y) =>
        EntryAt(a, r, x);
        EntryAt(a, At(a.ts, r, x).frame, y);
      case Pt(x, y, z) =>
        HasPtKept(a, b, r, Page(x, y, z, 0));
    }
  }

  /** Descending one link from an open table reaches an open table. */
  lemma OpenChild(v: Vm, r: Frame, t: Frame, i: Idx)
    requires Good(v) && IsRoot(v.place, r) && t in v.place && OpenTo(v, r, t)
    requires IsLink(v.place[t], At(v.ts, t, i)) && At(v.ts, t, i).flags.user
    ensures var c := At(v.ts, t, i).frame;
      c in v.place && c in v.ts && v.place[c] == Child(v.place[t], i) && OpenTo(v, r, c)
  {
    EntryAt(v, t, i);
  }

  lemma StoreOne(v: Vm, d: Frame, i: Idx, e: Entry, r: Frame, q: Page)
    requires Good(v) && d in v.ts && IsRoot(v.place, r)
    requires !Touches(v.ts, v.place, r, d) || !Under(v.place[d], i, q)
    ensures Walk(Put(v.ts, d, i, e), r, q) == Walk(v.ts, r, q)
  {
    EntryAt(v, r, q.i4);
    var e4 := At(v.ts, r, q.i4);
    if e4.flags.present {
      EntryAt(v, e4.frame, q.i3);
      var e3 := At(v.ts, e4.frame, q.i3);
      if e3.flags.present {
        EntryAt(v, e3.frame, q.i2);
      }
    }
  }

  lemma StoreTouchesSame(v: Vm, d: Frame, i: Idx, e: Entry, r: Frame, t: Frame)
    requires Good(v) && d in v.ts && IsRoot(v.place, r) && t in v.place
    requires !Touches(v.ts, v.place, r, d)
    ensures Touches(Put(v.ts, d, i, e), v.place, r, t) == Touches(v.ts, v.place, r, t)
  {
    match v.place[t] {
      case Root =>
      case Pdpt(x) =>
      case Pd(x, y) =>
        EntryAt(v, r, x);
      case Pt(x, y, z) =>
        EntryAt(v, r, x);
        if At(v.ts, r, x).flags.present {
          EntryAt(v, At(v.ts, r, x).frame, y);
        }
    }
  }

  /** A store into an empty entry of a private table, with a well-formed entry, is a step of the clone. */
  lemma PrivateStore(v: Vm, da: map<Frame, Bytes>, dst: Frame, d: Frame, i: Idx, e: Entry) returns (b: Vm)
    requires Good(v) && d in v.ts && Private(v, d, dst) && !At(v.ts, d, i).flags.present
    requires EntryOk(v.place, v.place[d], i, e) && !(IsHuge(v.place[d], e) && e.flags.user)
    ensures b == v.(ts := Put(v.ts, d, i, e)) && Good(b)
    ensures CloneStep(v, da, b, da, dst, Lo(v.place[d], i), Lo(v.place[d], i + 1))
  {
    b := v.(ts := Put(v.ts, d, i, e));
    forall h, j: Idx | h in b.ts
      ensures EntryOk(b.place, b.place[h], j, At(b.ts, h, j))
      ensures IsHuge(b.place[h], At(b.ts, h, j)) ==> !At(b.ts, h, j).flags.user
    {
      EntryAt(v, h, j);
    }
    forall r, q | IsRoot(v.place, r) && !(r == dst && Lo(v.place[d], i) <= Num(q) < Lo(v.place[d], i + 1))
      ensures Walk(b.ts, r, q) == Walk(v.ts, r, q)
    {
      UnderIsInterval(v.place[d], i, q);
      StoreOne(v, d, i, e, r, q);
    }
    forall t | Private(v, t, dst)
      ensures Private(b, t, dst)
    {
      forall r | IsRoot(b.place, r) && r != dst
        ensures !Touches(b.ts, b.place, r, t)
      {
        StoreTouchesSame(v, d, i, e, r, t);
      }
    }
  }

  /** Nothing is mapped under an empty entry. */
  lemma EmptySlot(v: Vm, r: Frame, t: Frame, i: Idx, q: Page)
    requires Good(v) && IsRoot(v.place, r) && t in v.place && Touches(v.ts, v.place, r, t)
    requires !At(v.ts, t, i).flags.present && Under(v.place[t], i, q)
    ensures Walk(v.ts, r, q) == Unmapped
  {
  }

  /** Skipping an entry that is empty in both tables copies its (unmapped) pages. */
  lemma SkipSlot(v: Vm, da: map<Frame, Bytes>, src: Frame, dst: Frame, s: Frame, d: Frame, i: Idx)
    requires Good(v) && IsRoot(v.place, src) && IsRoot(v.place, dst)
    requires s in v.place && d in v.place && v.place[s] == v.place[d]
    requires Touches(v.ts, v.place, src, s) && Touches(v.ts, v.place, dst, d)
    requires !At(v.ts, s, i).flags.present && !At(v.ts, d, i).flags.present
    ensures CopiedRange(v, da, v, da, src, dst, Lo(v.place[d], i), Lo(v.place[d], i + 1))
    ensures DistinctRange(v, v, src, dst, Lo(v.place[d], i), Lo(v.place[d], i + 1))
  {
    forall q | Lo(v.place[d], i) <= Num(q) < Lo(v.place[d], i + 1)
      ensures Walk(v.ts, src, q) == Unmapped && Walk(v.ts, dst, q) == Unmapped
    {
      UnderIsInterval(v.place[d], i, q);
      EmptySlot(v, src, s, i, q);
      EmptySlot(v, dst, d, i, q);
    }
  }

  /** Two roots with the same kernel-only entry at the same place translate its pages alike. */
  lemma SharedEntry(v: Vm, src: Frame, dst: Frame, s: Frame, d: Frame, i: Idx, q: Page)
    requires Good(v) && IsRoot(v.place, src) && IsRoot(v.place, dst)
    requires s in v.place && d in v.place && v.place[s] == v.place[d]
    requires Touches(v.ts, v.place, src, s) && Touches(v.ts, v.place, dst, d)
    requires At(v.ts, s, i) == At(v.ts, d, i) && !At(v.ts, s, i).flags.user && Under(v.place[d], i, q)
    ensures Walk(v.ts, dst, q) == Walk(v.ts, src, q) && !UserPage(Walk(v.ts, src, q))
  {
    EntryAt(v, src, q.i4);
    EntryAt(v, dst, q.i4);
    if !v.place[d].Root? {
      EntryAt(v, At(v.ts, src, q.i4).frame, q.i3);
      EntryAt(v, At(v.ts, dst, q.i4).frame, q.i3);
      if !v.place[d].Pdpt? {
        EntryAt(v, At(v.ts, At(v.ts, src, q.i4).frame, q.i3).frame, q.i2);
        EntryAt(v, At(v.ts, At(v.ts, dst, q.i4).frame, q.i3).frame, q.i2);
      }
    }
  }

  /** Sharing a kernel-only entry with the clone copies its pages. */
  lemma ShareSlot(v: Vm, da: map<Frame, Bytes>, src: Frame, dst: Frame, s: Frame, d: Frame, i: Idx) returns (b: Vm)
    requires Good(v) && IsRoot(v.place, src) && IsRoot(v.place, dst) && src != dst
    requires s in v.place && d in v.place && v.place[s] == v.place[d] && Private(v, d, dst)
    requires Touches(v.ts, v.place, src, s) && Touches(v.ts, v.place, dst, d)
    requires At(v.ts, s, i).flags.present && !At(v.ts, s, i).flags.user && !At(v.ts, d, i).flags.present
    ensures b == v.(ts := Put(v.ts, d, i, At(v.ts, s, i))) && Good(b)
    ensures CloneStep(v, da, b, da, dst, Lo(v.place[d], i), Lo(v.place[d], i + 1))
    ensures CopiedRange(v, da, b, da, src, dst, Lo(v.place[d], i), Lo(v.place[d], i + 1))
    ensures DistinctRange(v, b, src, dst, Lo(v.place[d], i), Lo(v.place[d], i + 1))
  {
    hide Private, CloneStep;
    EntryAt(v, s, i);
    b := PrivateStore(v, da, dst, d, i, At(v.ts, s, i));
    StoreTouchesItself(v, b, src, dst, s, d, i);
    forall q | Lo(v.place[d], i) <= Num(q) < Lo(v.place[d], i + 1)
      ensures Walk(b.ts, dst, q) == Walk(v.ts, src, q) && !UserPage(Walk(v.ts, src, q))
    {
      UnderIsInterval(v.place[d], i, q);
      SharedEntry(b, src, dst, s, d, i, q);
      StoreSourceSame(v, b, src, dst, d, i, q);
    }
  }

  lemma StoreTouchesItself(v: Vm, b: Vm, src: Frame, dst: Frame, s: Frame, d: Frame, i: Idx)
    requires Good(v) && Good(b) && IsRoot(v.place, src) && IsRoot(v.place, dst) && src != dst
    requires s in v.place && d in v.place && Private(v, d, dst)
    requires Touches(v.ts, v.place, src, s) && Touches(v.ts, v.place, dst, d)
    requires b == v.(ts := Put(v.ts, d, i, At(v.ts, s, i)))
    ensures s != d && Touches(b.ts, b.place, src, s) && Touches(b.ts, b.place, dst, d)
  {
    StoreTouchesSame(v, d, i, At(v.ts, s, i), src, s);
    match v.place[d] {
      case Root =>
      case Pdpt(x) =>
        EntryAt(v, dst, x);
      case Pd(x, y) =>
        EntryAt(v, dst, x);
        EntryAt(v, At(v.ts, dst, x).frame, y);
      case Pt(x, y, z) =>
        EntryAt(v, dst, x);
        EntryAt(v, At(v.ts, dst, x).frame, y);
        EntryAt(v, At(v.ts, At(v.ts, dst, x).frame, y).frame, z);
    }
  }

  lemma StoreSourceSame(v: Vm, b: Vm, src: Frame, dst: Frame, d: Frame, i: Idx, q: Page)
    requires Good(v) && IsRoot(v.place, src) && src != dst && d in v.ts && Private(v, d, dst)
    requires exists e :: b == v.(ts := Put(v.ts, d, i, e))
    ensures Walk(b.ts, src, q) == Walk(v.ts, src, q)
  {
    var e :| b == v.(ts := Put(v.ts, d, i, e));
    StoreOne(v, d, i, e, src, q);
  }

  /** A fresh zeroed table linked into a private table is private, open and empty; no page changes. */
  lemma NewSubtable(v: Vm, da: map<Frame, Bytes>, dst: Frame, d: Frame, i: Idx, g: Frame) returns (b: Vm)
    requires Good(v) && IsRoot(v.place, dst) && d in v.ts && Private(v, d, dst) && OpenTo(v, dst, d)
    requires !v.place[d].Pt? && !At(v.ts, d, i).flags.present && g !in v.used && g != 0
    ensures b == Vm(Put(v.ts[g := ZeroTable()], d, i, Entry(g, PRESENT_WRITABLE_USER)),
                    v.place[g := Child(v.place[d], i)], v.used + {g})
    ensures Good(b) && Private(b, g, dst) && OpenTo(b, dst, g)
    ensures forall lo, hi :: CloneStep(v, da, b, da, dst, lo, hi)
  {
    b := LinkGrows(v, d, i, g, PRESENT_WRITABLE_USER);
    forall t | Private(v, t, dst)
      ensures Private(b, t, dst)
    {
      forall r | IsRoot(b.place, r) && r != dst
        ensures !Touches(b.ts, b.place, r, t)
      {
        if Touches(b.ts, b.place, r, t) {
          TouchesBack(v, b, r, t);
        }
      }
    }
    forall r | IsRoot(b.place, r) && r != dst
      ensures !Touches(b.ts, b.place, r, g)
    {
      NewTableVia(v, b, d, i, g, r);
      if Touches(b.ts, b.place, r, d) {
        TouchesBack(v, b, r, d);
      }
    }
    OpenKept(v, b, dst, d);
    OpenChild(b, dst, d, i);
    forall lo, hi
      ensures CloneStep(v, da, b, da, dst, lo, hi)
    {
    }
  }

  /** Only the entry it was linked into leads to a fresh table. */
  lemma NewTableVia(v: Vm, b: Vm, d: Frame, i: Idx, g: Frame, r: Frame)
    requires Good(v) && d in v.ts && !v.place[d].Pt? && !At(v.ts, d, i).flags.present && g !in v.ts && g != 0
    requires IsRoot(b.place, r)
    requires b == Vm(Put(v.ts[g := ZeroTable()], d, i, Entry(g, PRESENT_WRITABLE_USER)),
                     v.place[g := Child(v.place[d], i)], v.used + {g})
    requires Good(b)
    ensures Touches(b.ts, b.place, r, g) ==> Touches(b.ts, b.place, r, d)
  {
    if Touches(b.ts, b.place, r, g) {
      match v.place[d] {
        case Root =>
          EntryAt(v, r, i);
        case Pdpt(x) =>
          EntryAt(b, r, x);
          var t3 := At(b.ts, r, x).frame;
          if t3 != d && t3 != g { EntryAt(v, t3, i); }
        case Pd(x, y) =>
          EntryAt(b, r, x);
          var t3 := At(b.ts, r, x).frame;
          EntryAt(b, t3, y);
          var t2 := At(b.ts, t3, y).frame;
          if t2 != d && t2 != g { EntryAt(v, t2, i); }
      }
    }
  }

  // ----- One entry of a table, and a table as far as its first entries -----

  /** Of the tables only `dst` reaches, nothing but entry `i` of `d` changes. */
  ghost predicate OnlyEntry(a: Vm, b: Vm, dst: Frame, d: Frame, i: Idx) {
    forall f, j: Idx :: Private(a, f, dst) && !(f == d && j == i) ==> At(b.ts, f, j) == At(a.ts, f, j)
  }

  /** Entry `i` of the clone's table `d` has been dealt with. */
  ghost predicate SlotDone(a: Vm, da: map<Frame, Bytes>, b: Vm, db: map<Frame, Bytes>, src: Frame, dst: Frame, d: Frame, i: Idx) {
    && d in a.place
    && CloneStep(a, da, b, db, dst, Lo(a.place[d], i), Lo(a.place[d], i + 1))
    && CopiedRange(a, da, b, db, src, dst, Lo(a.place[d], i), Lo(a.place[d], i + 1))
    && DistinctRange(a, b, src, dst, Lo(a.place[d], i), Lo(a.place[d], i + 1))
    && UserFramesOk(b, src)
    && OnlyEntry(a, b, dst, d, i)
  }

  /** `t` is the clone's private copy of table `s`; both are open to user mode. */
  ghost predicate Pair(v: Vm, src: Frame, dst: Frame, s: Frame, t: Frame) {
    && IsRoot(v.place, src) && IsRoot(v.place, dst) && src != dst
    && s in v.place && t in v.place && s in v.ts && t in v.ts && v.place[s] == v.place[t]
    && Private(v, t, dst) && OpenTo(v, src, s) && OpenTo(v, dst, t)
    && UserFramesOk(v, src)
  }

  /** The first `i` entries of `s` have been dealt with in `t`; the rest of `t` is empty. */
  ghost predicate Progress(v0: Vm, d0: map<Frame, Bytes>, v: Vm, d: map<Frame, Bytes>, src: Frame, dst: Frame,
                           s: Frame, t: Frame, i: nat) {
    && Pair(v, src, dst, s, t)
    && (forall j: Idx :: i <= j ==> !At(v.ts, t, j).flags.present)
    && CloneStep(v0, d0, v, d, dst, Base(v.place[t]), Lo(v.place[t], i))
    && CopiedRange(v0, d0, v, d, src, dst, Base(v.place[t]), Lo(v.place[t], i))
    && DistinctRange(v0, v, src, dst, Base(v.place[t]), Lo(v.place[t], i))
  }

  lemma PairKept(v: Vm, dv: map<Frame, Bytes>, w: Vm, dw: map<Frame, Bytes>, src: Frame, dst: Frame, s: Frame, t: Frame, lo: nat, hi: nat)
    requires Good(v) && Good(w) && Pair(v, src, dst, s, t) && CloneStep(v, dv, w, dw, dst, lo, hi) && UserFramesOk(w, src)
    ensures Pair(w, src, dst, s, t) && w.place[t] == v.place[t] && w.place[s] == v.place[s]
  {
    OpenKept(v, w, src, s);
    OpenKept(v, w, dst, t);
    Basics(w);
  }

  lemma Advance(v0: Vm, d0: map<Frame, Bytes>, v: Vm, dv: map<Frame, Bytes>, w: Vm, dw: map<Frame, Bytes>,
                src: Frame, dst: Frame, s: Frame, t: Frame, i: Idx)
    requires Good(v0) && Good(v) && Good(w) && UserFramesOk(v0, src)
    requires IsRoot(v0.place, src) && IsRoot(v0.place, dst)
    requires Progress(v0, d0, v, dv, src, dst, s, t, i)
    requires SlotDone(v, dv, w, dw, src, dst, t, i)
    ensures Progress(v0, d0, w, dw, src, dst, s, t, i + 1)
  {
    hide Good, CloneStep, CopiedRange, DistinctRange, UserFramesOk, OpenTo, Private;
    PairKept(v, dv, w, dw, src, dst, s, t, Lo(v.place[t], i), Lo(v.place[t], i + 1));
    LoGrows(v.place[t], i);
    AppendRange(v0, d0, v, dv, w, dw, src, dst, Base(v.place[t]), Lo(v.place[t], i), Lo(v.place[t], i + 1));
  }

  lemma LoGrows(pl: Place, i: nat)
    ensures Base(pl) <= Lo(pl, i) <= Lo(pl, i + 1) && Base(pl) == Lo(pl, 0)
  {
    NextLo(pl, i);
  }

  /** An entry that is empty or closed to user mode is copied as it is. */
  lemma KernelSlot(v: Vm, d: map<Frame, Bytes>, src: Frame, dst: Frame, s: Frame, t: Frame, i: Idx) returns (w: Vm)
    requires Good(v) && Pair(v, src, dst, s, t) && !At(v.ts, t, i).flags.present
    requires !At(v.ts, s, i).flags.present || !At(v.ts, s, i).flags.user
    ensures w == if At(v.ts, s, i).flags.present then v.(ts := Put(v.ts, t, i, At(v.ts, s, i))) else v
    ensures Good(w) && SlotDone(v, d, w, d, src, dst, t, i)
  {
    hide Good, CloneStep, CopiedRange, DistinctRange, Private;
    if At(v.ts, s, i).flags.present {
      w := ShareSlot(v, d, src, dst, s, t, i);
      forall q | UserPage(Walk(w.ts, src, q))
        ensures Walk(w.ts, src, q) == Walk(v.ts, src, q)
      {
        StoreSourceSame(v, w, src, dst, t, i, q);
      }
    } else {
      w := v;
      SkipSlot(v, d, src, dst, s, t, i);
      StepRefl(v, d, dst, Lo(v.place[t], i), Lo(v.place[t], i + 1));
    }
  }
}
