/**
  Four-level page tables as values: what a walk from a root yields, the
  invariant that the tables form trees, and what single stores do to both.

  Every table frame has one place: the index path that leads to it. A child
  table must sit at the place of its parent extended by the index of the entry,
  so from one root no table is reached by two paths, while two roots may share
  a table at the same place, as cloned address spaces do.
 */
module PageTables {
  type Frame = nat
  type Idx = i: nat | i < 512

  /** The flag bits of an entry; `rest` stands for the bits no code here looks at. */
  datatype Flags = Flags(present: bool, writable: bool, user: bool, huge: bool, nx: bool, rest: nat)
  datatype Entry = Entry(frame: Frame, flags: Flags)

  const NO_FLAGS: Flags := Flags(false, false, false, false, false, 0)
  const PRESENT: Flags := NO_FLAGS.(present := true)
  const PRESENT_WRITABLE: Flags := PRESENT.(writable := true)
  const PRESENT_WRITABLE_USER: Flags := PRESENT_WRITABLE.(user := true)
  const ZERO: Entry := Entry(0, NO_FLAGS)

  type Table = t: seq<Entry> | |t| == 512 witness seq(512, _ => ZERO)
  type Tables = map<Frame, Table>

  datatype Place = Root | Pdpt(i4: Idx) | Pd(i4: Idx, i3: Idx) | Pt(i4: Idx, i3: Idx, i2: Idx)
  type Places = map<Frame, Place>

  /** A 4 KiB page of virtual memory, named by its four table indices. */
  datatype Page = Page(i4: Idx, i3: Idx, i2: Idx, i1: Idx)

  /**
    What a page translates to. `flags` are those of the leaf entry (without the
    huge bit); `user`, `writable` and `nx` are the permissions of the whole walk.
   */
  datatype Mapping = Unmapped | Mapped(frame: Frame, flags: Flags, user: bool, writable: bool, nx: bool)

  function ZeroTable(): Table { seq(512, _ => ZERO) }

  function At(ts: Tables, f: Frame, i: Idx): Entry {
    if f in ts then ts[f][i] else ZERO
  }

  function Put(ts: Tables, f: Frame, i: Idx, e: Entry): Tables
    requires f in ts
  {
    ts[f := ts[f][i := e]]
  }

  function Leaf(frame: Frame, flags: Flags, f4: Flags, f3: Flags, f2: Flags): Mapping {
    Mapped(frame, flags.(huge := false),
           f4.user && f3.user && f2.user && flags.user,
           f4.writable && f3.writable && f2.writable && flags.writable,
           f4.nx || f3.nx || f2.nx || flags.nx)
  }

  function Walk(ts: Tables, root: Frame, p: Page): Mapping {
    var e4 := At(ts, root, p.i4);
    if !e4.flags.present then Unmapped else
    var e3 := At(ts, e4.frame, p.i3);
    if !e3.flags.present then Unmapped else
    var e2 := At(ts, e3.frame, p.i2);
    if !e2.flags.present then Unmapped else
    if e2.flags.huge then Leaf(e2.frame + p.i1, e2.flags, e4.flags, e3.flags, e2.flags) else
    var e1 := At(ts, e2.frame, p.i1);
    if !e1.flags.present then Unmapped else Leaf(e1.frame, e1.flags, e4.flags, e3.flags, e2.flags)
  }

  // ----- The tree invariant -----

  function Child(pl: Place, i: Idx): Place
    requires !pl.Pt?
  {
    match pl
    case Root => Pdpt(i)
    case Pdpt(a) => Pd(a, i)
    case Pd(a, b) => Pt(a, b, i)
  }

  /** A link to a lower table, as every table-creating path of the code writes it. */
  predicate LinkFlags(fl: Flags) {
    fl.present && fl.writable && !fl.huge && !fl.nx
  }

  /** Present entries above the last level are links, except 2 MiB pages; there are no 1 GiB pages. */
  predicate EntryOk(place: Places, pl: Place, i: Idx, e: Entry) {
    IsLink(pl, e) ==> LinkFlags(e.flags) && e.frame in place && place[e.frame] == Child(pl, i)
  }

  predicate IsLink(pl: Place, e: Entry) {
    e.flags.present && !pl.Pt? && !(pl.Pd? && e.flags.huge)
  }

  predicate IsHuge(pl: Place, e: Entry) {
    e.flags.present && pl.Pd? && e.flags.huge
  }

  ghost predicate WF(ts: Tables, place: Places, used: set<Frame>) {
    && ts.Keys == place.Keys
    && place.Keys <= used
    && 0 !in ts
    && forall f, i: Idx :: f in ts ==> EntryOk(place, place[f], i, At(ts, f, i))
  }

  /** No 2 MiB page is open to user mode. */
  ghost predicate NoUserHuge(ts: Tables, place: Places) {
    forall f, i: Idx :: f in ts && f in place && IsHuge(place[f], At(ts, f, i)) ==> !At(ts, f, i).flags.user
  }

  predicate IsRoot(place: Places, r: Frame) { r in place && place[r] == Root }

  /** All present links lead from `r` to the page table `t` of page `p`. */
  predicate Reaches(ts: Tables, r: Frame, p: Page, t: Frame) {
    var e4 := At(ts, r, p.i4);
    var e3 := At(ts, e4.frame, p.i3);
    var e2 := At(ts, e3.frame, p.i2);
    e4.flags.present && e3.flags.present && e2.flags.present && !e2.flags.huge && e2.frame == t
  }

  /** The user bit of the three upper levels of the walk to `p`. */
  predicate UpperUser(ts: Tables, r: Frame, p: Page) {
    var e4 := At(ts, r, p.i4);
    var e3 := At(ts, e4.frame, p.i3);
    var e2 := At(ts, e3.frame, p.i2);
    e4.flags.user && e3.flags.user && e2.flags.user
  }

  function LeafMapping(e: Entry, upperUser: bool): Mapping {
    if !e.flags.present then Unmapped
    else Mapped(e.frame, e.flags.(huge := false), upperUser && e.flags.user, e.flags.writable, e.flags.nx)
  }

  lemma WalkThroughTable(ts: Tables, place: Places, used: set<Frame>, r: Frame, p: Page, t: Frame)
    requires WF(ts, place, used) && IsRoot(place, r) && Reaches(ts, r, p, t)
    ensures t in ts && place[t] == Pt(p.i4, p.i3, p.i2)
    ensures Walk(ts, r, p) == LeafMapping(At(ts, t, p.i1), UpperUser(ts, r, p))
  {
    var e4 := At(ts, r, p.i4);
    assert EntryOk(place, place[r], p.i4, e4);
    var e3 := At(ts, e4.frame, p.i3);
    assert EntryOk(place, place[e4.frame], p.i3, e3);
    var e2 := At(ts, e3.frame, p.i2);
    assert EntryOk(place, place[e3.frame], p.i2, e2);
  }

  // ----- Stores -----

  lemma LinkOne(ts: Tables, place: Places, used: set<Frame>, f: Frame, i: Idx, g: Frame, fl: Flags, r: Frame, q: Page)
    requires WF(ts, place, used) && f in ts && !place[f].Pt? && !At(ts, f, i).flags.present
    requires g !in ts && g != 0 && LinkFlags(fl) && IsRoot(place, r)
    ensures Walk(Put(ts[g := ZeroTable()], f, i, Entry(g, fl)), r, q) == Walk(ts, r, q)
  {
    var ts' := Put(ts[g := ZeroTable()], f, i, Entry(g, fl));
    var e4 := At(ts, r, q.i4);
    assert EntryOk(place, place[r], q.i4, e4);
    if e4.flags.present {
      var e3 := At(ts, e4.frame, q.i3);
      assert EntryOk(place, place[e4.frame], q.i3, e3);
      if e3.flags.present {
        var e2 := At(ts, e3.frame, q.i2);
        assert EntryOk(place, place[e3.frame], q.i2, e2);
      }
    }
  }

  /** Hanging a fresh zeroed table into an empty entry changes no translation from any root. */
  lemma LinkFreshTable(ts: Tables, place: Places, used: set<Frame>, f: Frame, i: Idx, g: Frame, fl: Flags)
    returns (ts': Tables, place': Places)
    requires WF(ts, place, used) && f in ts && !place[f].Pt? && !At(ts, f, i).flags.present
    requires g !in ts && g != 0 && LinkFlags(fl)
    ensures ts' == Put(ts[g := ZeroTable()], f, i, Entry(g, fl))
    ensures place' == place[g := Child(place[f], i)]
    ensures WF(ts', place', used + {g})
    ensures forall r, q :: IsRoot(place, r) ==> Walk(ts', r, q) == Walk(ts, r, q)
  {
    ts' := Put(ts[g := ZeroTable()], f, i, Entry(g, fl));
    place' := place[g := Child(place[f], i)];
    forall h, j: Idx | h in ts'
      ensures EntryOk(place', place'[h], j, At(ts', h, j))
    {
      if h != g {
        assert EntryOk(place, place[h], j, At(ts, h, j));
      }
    }
    forall r, q | IsRoot(place, r)
      ensures Walk(ts', r, q) == Walk(ts, r, q)
    {
      LinkOne(ts, place, used, f, i, g, fl, r, q);
    }
  }

  /** The 512 entries that replace a huge entry. */
  function SplitTable(e: Entry): Table {
    seq(512, (i: nat) => Entry(e.frame + i, e.flags.(huge := false)))
  }

  /** The walk to `q` from `r` passes through entry `i` of the page directory `f`. */
  predicate PassesPd(ts: Tables, r: Frame, q: Page, f: Frame, i: Idx) {
    var e4 := At(ts, r, q.i4);
    var e3 := At(ts, e4.frame, q.i3);
    e4.flags.present && e3.flags.present && e3.frame == f && q.i2 == i
  }

  /** The user bits of the two links above the page directory of `q`. */
  predicate PdUser(ts: Tables, r: Frame, q: Page) {
    var e4 := At(ts, r, q.i4);
    e4.flags.user && At(ts, e4.frame, q.i3).flags.user
  }

  function WithoutUser(m: Mapping): Mapping {
    if m.Unmapped? then m else m.(user := false)
  }

  lemma SplitOne(ts: Tables, place: Places, used: set<Frame>, f: Frame, i: Idx, g: Frame, r: Frame, q: Page)
    requires WF(ts, place, used) && f in ts && IsHuge(place[f], At(ts, f, i))
    requires g !in ts && IsRoot(place, r)
    ensures Walk(Put(ts[g := SplitTable(At(ts, f, i))], f, i, Entry(g, PRESENT_WRITABLE)), r, q) ==
      if PassesPd(ts, r, q, f, i) then WithoutUser(Walk(ts, r, q)) else Walk(ts, r, q)
    ensures PassesPd(ts, r, q, f, i) ==>
      Walk(ts, r, q).Mapped? && Walk(ts, r, q).user == (PdUser(ts, r, q) && At(ts, f, i).flags.user)
  {
    var e4 := At(ts, r, q.i4);
    assert EntryOk(place, place[r], q.i4, e4);
    if e4.flags.present {
      var e3 := At(ts, e4.frame, q.i3);
      assert EntryOk(place, place[e4.frame], q.i3, e3);
      if e3.flags.present {
        var e2 := At(ts, e3.frame, q.i2);
        assert EntryOk(place, place[e3.frame], q.i2, e2);
      }
    }
  }

  lemma SplitKeepsTrees(ts: Tables, place: Places, used: set<Frame>, f: Frame, i: Idx, g: Frame)
    returns (ts': Tables, place': Places)
    requires WF(ts, place, used) && f in ts && IsHuge(place[f], At(ts, f, i))
    requires g !in ts && g != 0
    ensures ts' == Put(ts[g := SplitTable(At(ts, f, i))], f, i, Entry(g, PRESENT_WRITABLE))
    ensures place' == place[g := Child(place[f], i)]
    ensures WF(ts', place', used + {g})
  {
    ts' := Put(ts[g := SplitTable(At(ts, f, i))], f, i, Entry(g, PRESENT_WRITABLE));
    place' := place[g := Child(place[f], i)];
    forall h, j: Idx | h in ts'
      ensures EntryOk(place', place'[h], j, At(ts', h, j))
    {
      if h != g {
        assert EntryOk(place, place[h], j, At(ts, h, j));
      }
    }
  }

  /**
    Splitting a huge page keeps every translation with its permissions seen from
    `r` if and only if the huge entry is not reachable in user mode from `r`: the
    new directory entry drops the user bit.
   */
  lemma SplitKeepsRootIff(ts: Tables, place: Places, used: set<Frame>, f: Frame, i: Idx, g: Frame, r: Frame)
    requires WF(ts, place, used) && f in ts && IsHuge(place[f], At(ts, f, i))
    requires g !in ts && IsRoot(place, r)
    ensures
      var ts' := Put(ts[g := SplitTable(At(ts, f, i))], f, i, Entry(g, PRESENT_WRITABLE));
      var q := Page(place[f].i4, place[f].i3, i, 0);
      (forall p :: Walk(ts', r, p) == Walk(ts, r, p))
      <==> !(PassesPd(ts, r, q, f, i) && PdUser(ts, r, q) && At(ts, f, i).flags.user)
  {
    var ts' := Put(ts[g := SplitTable(At(ts, f, i))], f, i, Entry(g, PRESENT_WRITABLE));
    var q := Page(place[f].i4, place[f].i3, i, 0);
    SplitOne(ts, place, used, f, i, g, r, q);
    forall p
      ensures PassesPd(ts, r, p, f, i) ==> p.i4 == q.i4 && p.i3 == q.i3 && p.i2 == q.i2
      ensures Walk(ts', r, p) == Walk(ts, r, p) || (PassesPd(ts, r, p, f, i) && PdUser(ts, r, p) && At(ts, f, i).flags.user)
    {
      SplitOne(ts, place, used, f, i, g, r, p);
      var e4 := At(ts, r, p.i4);
      assert EntryOk(place, place[r], p.i4, e4);
      if e4.flags.present {
        assert EntryOk(place, place[e4.frame], p.i3, At(ts, e4.frame, p.i3));
      }
    }
  }

  /** Splitting a huge page that is not open to user mode changes no translation and no permission from any root. */
  lemma SplitKeepsWalks(ts: Tables, place: Places, used: set<Frame>, f: Frame, i: Idx, g: Frame)
    returns (ts': Tables, place': Places)
    requires WF(ts, place, used) && f in ts && IsHuge(place[f], At(ts, f, i))
    requires !At(ts, f, i).flags.user
    requires g !in ts && g != 0
    ensures ts' == Put(ts[g := SplitTable(At(ts, f, i))], f, i, Entry(g, PRESENT_WRITABLE))
    ensures place' == place[g := Child(place[f], i)]
    ensures WF(ts', place', used + {g})
    ensures forall r, q :: IsRoot(place, r) ==> Walk(ts', r, q) == Walk(ts, r, q)
  {
    ts', place' := SplitKeepsTrees(ts, place, used, f, i, g);
    forall r, q | IsRoot(place, r)
      ensures Walk(ts', r, q) == Walk(ts, r, q)
    {
      SplitOne(ts, place, used, f, i, g, r, q);
    }
  }

  lemma LeafOne(ts: Tables, place: Places, used: set<Frame>, t: Frame, i: Idx, e: Entry, r: Frame, q: Page)
    requires WF(ts, place, used) && t in ts && place[t].Pt? && IsRoot(place, r)
    ensures var p := Page(place[t].i4, place[t].i3, place[t].i2, i);
      Walk(Put(ts, t, i, e), r, q) ==
        if q == p && Reaches(ts, r, p, t) then LeafMapping(e, UpperUser(ts, r, p)) else Walk(ts, r, q)
  {
    var e4 := At(ts, r, q.i4);
    assert EntryOk(place, place[r], q.i4, e4);
    if e4.flags.present {
      var e3 := At(ts, e4.frame, q.i3);
      assert EntryOk(place, place[e4.frame], q.i3, e3);
      if e3.flags.present {
        var e2 := At(ts, e3.frame, q.i2);
        assert EntryOk(place, place[e3.frame], q.i2, e2);
      }
    }
  }

  /** A store into a page table changes one page, in exactly the roots that reach that table. */
  lemma LeafStore(ts: Tables, place: Places, used: set<Frame>, t: Frame, i: Idx, e: Entry)
    returns (ts': Tables)
    requires WF(ts, place, used) && t in ts && place[t].Pt?
    ensures ts' == Put(ts, t, i, e)
    ensures WF(ts', place, used)
    ensures var p := Page(place[t].i4, place[t].i3, place[t].i2, i);
      forall r, q :: IsRoot(place, r) ==>
        Walk(ts', r, q) ==
          if q == p && Reaches(ts, r, p, t) then LeafMapping(e, UpperUser(ts, r, p)) else Walk(ts, r, q)
  {
    ts' := Put(ts, t, i, e);
    forall h, j: Idx | h in ts'
      ensures EntryOk(place, place[h], j, At(ts', h, j))
    {
      assert EntryOk(place, place[h], j, At(ts, h, j));
    }
    var p := Page(place[t].i4, place[t].i3, place[t].i2, i);
    forall r, q | IsRoot(place, r)
      ensures Walk(ts', r, q) ==
        if q == p && Reaches(ts, r, p, t) then LeafMapping(e, UpperUser(ts, r, p)) else Walk(ts, r, q)
    {
      LeafOne(ts, place, used, t, i, e, r, q);
    }
  }

  // ----- Growth: what every operation on the tables keeps -----

  /** The tables of a machine together with the frames its allocator has marked used. */
  datatype Vm = Vm(ts: Tables, place: Places, used: set<Frame>)

  ghost predicate Good(v: Vm) {
    WF(v.ts, v.place, v.used) && NoUserHuge(v.ts, v.place)
  }

  /**
    `b` has the tables of `a` at the same places with the same links, plus new
    tables that are no roots and sit in frames that were free; nothing else became used.
   */
  ghost predicate Extends(a: Vm, b: Vm) {
    && (forall f :: f in a.place ==> f in b.place && b.place[f] == a.place[f])
    && (forall f :: f in b.place && f !in a.place ==> !b.place[f].Root? && f !in a.used)
    && b.used == a.used + (b.place.Keys - a.place.Keys)
    && LinksKept(a, b)
    && NewLinksFresh(a, b)
  }

  ghost predicate LinksKept(a: Vm, b: Vm) {
    forall f, i: Idx :: f in a.place && IsLink(a.place[f], At(a.ts, f, i)) ==> At(b.ts, f, i) == At(a.ts, f, i)
  }

  /** A link of `b` is a link of `a` or leads to a table that `a` did not have. */
  ghost predicate NewLinksFresh(a: Vm, b: Vm) {
    forall f, i: Idx :: f in b.place && IsLink(b.place[f], At(b.ts, f, i)) && At(b.ts, f, i).frame in a.place ==>
      f in a.place && At(b.ts, f, i) == At(a.ts, f, i)
  }

  /** No root of `a` sees any change. */
  ghost predicate SameWalks(a: Vm, b: Vm) {
    forall r, q :: IsRoot(a.place, r) ==> Walk(b.ts, r, q) == Walk(a.ts, r, q)
  }

  lemma ExtendsTransitive(a: Vm, b: Vm, c: Vm)
    requires Good(a) && Good(b) && Extends(a, b) && Extends(b, c)
    ensures Extends(a, c)
  {
    forall f, i: Idx | f in a.place && IsLink(a.place[f], At(a.ts, f, i))
      ensures At(c.ts, f, i) == At(a.ts, f, i)
    {
      assert At(b.ts, f, i) == At(a.ts, f, i);
      assert IsLink(b.place[f], At(b.ts, f, i));
    }
    forall f, i: Idx | f in c.place && IsLink(c.place[f], At(c.ts, f, i)) && At(c.ts, f, i).frame in a.place
      ensures f in a.place && At(c.ts, f, i) == At(a.ts, f, i)
    {
      assert f in b.place && At(c.ts, f, i) == At(b.ts, f, i);
    }
  }

  lemma EntryAt(a: Vm, f: Frame, i: Idx)
    requires Good(a) && f in a.ts
    ensures f in a.place && EntryOk(a.place, a.place[f], i, At(a.ts, f, i))
    ensures IsLink(a.place[f], At(a.ts, f, i)) ==> At(a.ts, f, i).frame in a.ts && At(a.ts, f, i).frame != 0
    ensures IsHuge(a.place[f], At(a.ts, f, i)) ==> !At(a.ts, f, i).flags.user
  {
  }

  lemma Basics(a: Vm)
    requires Good(a)
    ensures a.ts.Keys == a.place.Keys && a.place.Keys <= a.used && 0 !in a.ts
  {
  }

  lemma HugeStaysKernel(a: Vm, f: Frame, i: Idx, g: Frame, t: Table, e: Entry)
    requires Good(a) && f in a.ts && !a.place[f].Pt? && g !in a.used && !e.flags.huge
    ensures a.place[f].Pd? || t == ZeroTable() ==>
      NoUserHuge(Put(a.ts[g := t], f, i, e), a.place[g := Child(a.place[f], i)])
  {
    var ts', place' := Put(a.ts[g := t], f, i, e), a.place[g := Child(a.place[f], i)];
    if a.place[f].Pd? || t == ZeroTable() {
      forall h, j: Idx | h in ts' && h in place' && IsHuge(place'[h], At(ts', h, j))
        ensures !At(ts', h, j).flags.user
      {
        assert h != g && (h != f || j != i);
        EntryAt(a, h, j);
      }
    }
  }

  lemma GrowsRefl(a: Vm)
    ensures Extends(a, a) && SameWalks(a, a)
  {
  }

  lemma LinkGrows(a: Vm, f: Frame, i: Idx, g: Frame, fl: Flags) returns (b: Vm)
    requires Good(a) && f in a.ts && !a.place[f].Pt? && !At(a.ts, f, i).flags.present
    requires g !in a.used && g != 0 && LinkFlags(fl)
    ensures b == Vm(Put(a.ts[g := ZeroTable()], f, i, Entry(g, fl)), a.place[g := Child(a.place[f], i)], a.used + {g})
    ensures Good(b) && Extends(a, b) && SameWalks(a, b)
  {
    var ts', place' := LinkFreshTable(a.ts, a.place, a.used, f, i, g, fl);
    b := Vm(ts', place', a.used + {g});
    assert b.place.Keys - a.place.Keys == {g};
    HugeStaysKernel(a, f, i, g, ZeroTable(), Entry(g, fl));
  }

  lemma SplitGrows(a: Vm, f: Frame, i: Idx, g: Frame) returns (b: Vm)
    requires Good(a) && f in a.ts && IsHuge(a.place[f], At(a.ts, f, i))
    requires g !in a.used && g != 0
    ensures b == Vm(Put(a.ts[g := SplitTable(At(a.ts, f, i))], f, i, Entry(g, PRESENT_WRITABLE)),
                    a.place[g := Child(a.place[f], i)], a.used + {g})
    ensures Good(b) && Extends(a, b) && SameWalks(a, b)
  {
    assert !At(a.ts, f, i).flags.user;
    var ts', place' := SplitKeepsWalks(a.ts, a.place, a.used, f, i, g);
    b := Vm(ts', place', a.used + {g});
    assert b.place.Keys - a.place.Keys == {g};
    HugeStaysKernel(a, f, i, g, SplitTable(At(a.ts, f, i)), Entry(g, PRESENT_WRITABLE));
  }

  // ----- One page changes -----

  /** From every root, every page but `p` translates as before. */
  ghost predicate OnlyPage(a: Vm, b: Vm, p: Page) {
    forall r, q :: IsRoot(a.place, r) && q != p ==> Walk(b.ts, r, q) == Walk(a.ts, r, q)
  }

  /** Links lead from `r` to a page table for `p`. */
  predicate HasPt(ts: Tables, r: Frame, p: Page) {
    var e4 := At(ts, r, p.i4);
    var e3 := At(ts, e4.frame, p.i3);
    var e2 := At(ts, e3.frame, p.i2);
    e4.flags.present && e3.flags.present && e2.flags.present && !e2.flags.huge
  }

  function PtOf(ts: Tables, r: Frame, p: Page): Frame {
    At(ts, At(ts, At(ts, r, p.i4).frame, p.i3).frame, p.i2).frame
  }

  lemma HasPtPlace(a: Vm, r: Frame, p: Page)
    requires Good(a) && IsRoot(a.place, r) && HasPt(a.ts, r, p)
    ensures PtOf(a.ts, r, p) in a.ts && a.place[PtOf(a.ts, r, p)] == Pt(p.i4, p.i3, p.i2)
    ensures Reaches(a.ts, r, p, PtOf(a.ts, r, p))
    ensures Walk(a.ts, r, p) == LeafMapping(At(a.ts, PtOf(a.ts, r, p), p.i1), UpperUser(a.ts, r, p))
  {
    WalkThroughTable(a.ts, a.place, a.used, r, p, PtOf(a.ts, r, p));
  }

  lemma HasPtKept(a: Vm, b: Vm, r: Frame, p: Page)
    requires Good(a) && LinksKept(a, b) && IsRoot(a.place, r) && HasPt(a.ts, r, p)
    ensures HasPt(b.ts, r, p) && PtOf(b.ts, r, p) == PtOf(a.ts, r, p) && UpperUser(b.ts, r, p) == UpperUser(a.ts, r, p)
  {
    var e4 := At(a.ts, r, p.i4);
    EntryAt(a, r, p.i4);
    EntryAt(a, e4.frame, p.i3);
    var e3 := At(a.ts, e4.frame, p.i3);
    EntryAt(a, e3.frame, p.i2);
  }

  /** The leaf entry of page `p`, seen from `root`, replaced by `e`. */
  function StoreAt(v: Vm, root: Frame, p: Page, e: Entry): Vm {
    if PtOf(v.ts, root, p) in v.ts then v.(ts := Put(v.ts, PtOf(v.ts, root, p), p.i1, e)) else v
  }

  /** A store into the page table of `p`, as seen from every root. */
  lemma StoreLeaf(a: Vm, root: Frame, p: Page, e: Entry) returns (b: Vm)
    requires Good(a) && IsRoot(a.place, root) && HasPt(a.ts, root, p)
    ensures PtOf(a.ts, root, p) in a.ts && b == a.(ts := Put(a.ts, PtOf(a.ts, root, p), p.i1, e))
    ensures Good(b) && Extends(a, b) && OnlyPage(a, b, p)
    ensures Walk(b.ts, root, p) == LeafMapping(e, UpperUser(a.ts, root, p))
    ensures HasPt(b.ts, root, p)
    ensures forall r :: IsRoot(a.place, r) ==>
      Walk(b.ts, r, p) == Walk(a.ts, r, p) || Walk(b.ts, r, p) == LeafMapping(e, UpperUser(a.ts, r, p))
  {
    HasPtPlace(a, root, p);
    var t := PtOf(a.ts, root, p);
    var ts' := LeafStore(a.ts, a.place, a.used, t, p.i1, e);
    b := a.(ts := ts');
    forall h, j: Idx | h in b.ts && h in b.place && IsHuge(b.place[h], At(b.ts, h, j))
      ensures !At(b.ts, h, j).flags.user
    {
      EntryAt(a, h, j);
    }
    HasPtKept(a, b, root, p);
  }

  /** A store into a page table gives no page a page table. */
  lemma LeafReach(a: Vm, root: Frame, p: Page, e: Entry)
    requires Good(a) && IsRoot(a.place, root) && HasPt(a.ts, root, p)
    ensures forall q :: HasPt(StoreAt(a, root, p, e).ts, root, q) ==> HasPt(a.ts, root, q)
  {
    hide HasPt, Walk, Extends;
    var b := StoreLeaf(a, root, p, e);
    HasPtPlace(a, root, p);
    forall f, i: Idx | f in b.place && IsLink(b.place[f], At(b.ts, f, i))
      ensures At(a.ts, f, i) == At(b.ts, f, i)
    {
      AtPut(a.ts, PtOf(a.ts, root, p), p.i1, e, f, i);
    }
    forall q | HasPt(b.ts, root, q)
      ensures HasPt(a.ts, root, q)
    {
      HasPtKept(b, a, root, q);
    }
  }

  lemma OnlyPageAfterSame(a: Vm, b: Vm, c: Vm, p: Page)
    requires Extends(a, b) && SameWalks(a, b) && OnlyPage(b, c, p)
    ensures OnlyPage(a, c, p)
  {
    forall r, q | IsRoot(a.place, r) && q != p
      ensures Walk(c.ts, r, q) == Walk(a.ts, r, q)
    {
      assert IsRoot(b.place, r);
      assert Walk(b.ts, r, q) == Walk(a.ts, r, q);
    }
  }

  lemma SameTransitive(a: Vm, b: Vm, c: Vm)
    requires Extends(a, b) && SameWalks(a, b) && SameWalks(b, c)
    ensures SameWalks(a, c)
  {
    forall r, q | IsRoot(a.place, r)
      ensures Walk(c.ts, r, q) == Walk(a.ts, r, q)
    {
      assert IsRoot(b.place, r);
      assert Walk(b.ts, r, q) == Walk(a.ts, r, q);
    }
  }

  // ----- Opening the path of one page to user mode -----

  /** The same translation, except that a page whose leaf has the user bit may have become open to user mode. */
  predicate Opened(m: Mapping, n: Mapping) {
    n == m || (m.Mapped? && m.flags.user && n == m.(user := true))
  }

  function OpenEntry(e: Entry): Entry { Entry(e.frame, e.flags.(user := true)) }

  lemma OpenOne(a: Vm, f: Frame, i: Idx, r: Frame, q: Page)
    requires Good(a) && f in a.ts && IsLink(a.place[f], At(a.ts, f, i)) && IsRoot(a.place, r)
    ensures Opened(Walk(a.ts, r, q), Walk(Put(a.ts, f, i, OpenEntry(At(a.ts, f, i))), r, q))
  {
    hide Put, At, Good;
    Basics(a);
    var e := OpenEntry(At(a.ts, f, i));
    EntryAt(a, r, q.i4);
    AtPut(a.ts, f, i, e, r, q.i4);
    var e4 := At(a.ts, r, q.i4);
    AtPut(a.ts, f, i, e, e4.frame, q.i3);
    var e3 := At(a.ts, e4.frame, q.i3);
    AtPut(a.ts, f, i, e, e3.frame, q.i2);
    var e2 := At(a.ts, e3.frame, q.i2);
    AtPut(a.ts, f, i, e, e2.frame, q.i1);
    if e4.flags.present {
      EntryAt(a, e4.frame, q.i3);
      if e3.flags.present {
        EntryAt(a, e3.frame, q.i2);
      }
    }
  }

  lemma AtPut(ts: Tables, f: Frame, i: Idx, e: Entry, g: Frame, j: Idx)
    requires f in ts
    ensures At(Put(ts, f, i, e), g, j) == if g == f && j == i then e else At(ts, g, j)
  {
  }

  ghost predicate OpensOnly(a: Vm, b: Vm) {
    forall r, q :: IsRoot(a.place, r) ==> Opened(Walk(a.ts, r, q), Walk(b.ts, r, q))
  }

  ghost predicate SameReach(ts: Tables, ts': Tables) { forall r, p :: HasPt(ts, r, p) <==> HasPt(ts', r, p) }

  lemma OpenKeepsReach(ts: Tables, f: Frame, i: Idx)
    requires f in ts
    ensures SameReach(ts, Put(ts, f, i, OpenEntry(At(ts, f, i))))
  {
    hide Put, At;
    forall r, p
      ensures HasPt(ts, r, p) <==> HasPt(Put(ts, f, i, OpenEntry(At(ts, f, i))), r, p)
    {
      var e := OpenEntry(At(ts, f, i));
      AtPut(ts, f, i, e, r, p.i4);
      AtPut(ts, f, i, e, At(ts, r, p.i4).frame, p.i3);
      AtPut(ts, f, i, e, At(ts, At(ts, r, p.i4).frame, p.i3).frame, p.i2);
    }
  }

  /** Setting the user bit of a link keeps the trees and can only open pages whose leaf is a user entry. */
  lemma OpenLink(a: Vm, f: Frame, i: Idx) returns (b: Vm)
    requires Good(a) && f in a.ts && IsLink(a.place[f], At(a.ts, f, i))
    ensures b == a.(ts := Put(a.ts, f, i, OpenEntry(At(a.ts, f, i))))
    ensures Good(b) && OpensOnly(a, b) && SameReach(a.ts, b.ts)
  {
    hide SameReach, Walk;
    b := a.(ts := Put(a.ts, f, i, OpenEntry(At(a.ts, f, i))));
    OpenKeepsReach(a.ts, f, i);
    forall h, j: Idx | h in b.ts
      ensures EntryOk(b.place, b.place[h], j, At(b.ts, h, j))
      ensures IsHuge(b.place[h], At(b.ts, h, j)) ==> !At(b.ts, h, j).flags.user
    {
      EntryAt(a, h, j);
    }
    forall r, q | IsRoot(a.place, r)
      ensures Opened(Walk(a.ts, r, q), Walk(b.ts, r, q))
    {
      OpenOne(a, f, i, r, q);
    }
  }

  lemma OpensTransitive(a: Vm, b: Vm, c: Vm)
    requires a.place == b.place && OpensOnly(a, b) && OpensOnly(b, c)
    ensures OpensOnly(a, c)
  {
    forall r, q | IsRoot(a.place, r)
      ensures Opened(Walk(a.ts, r, q), Walk(c.ts, r, q))
    {
      assert Opened(Walk(a.ts, r, q), Walk(b.ts, r, q)) && Opened(Walk(b.ts, r, q), Walk(c.ts, r, q));
    }
  }

  /** The user bits of the three links to the page table of `p` set from the root down. */
  lemma OpenPath(a: Vm, r: Frame, p: Page) returns (b: Vm)
    requires Good(a) && IsRoot(a.place, r) && HasPt(a.ts, r, p)
    ensures
      var t3, t2 := At(a.ts, r, p.i4).frame, PdOf(a.ts, r, p);
      t3 in a.ts && t2 in a.ts && r != t3 && r != t2 && t3 != t2 && b == a.(ts :=
        a.ts[r := a.ts[r][p.i4 := OpenEntry(At(a.ts, r, p.i4))]]
            [t3 := a.ts[t3][p.i3 := OpenEntry(At(a.ts, t3, p.i3))]]
            [t2 := a.ts[t2][p.i2 := OpenEntry(At(a.ts, t2, p.i2))]])
    ensures Good(b) && OpensOnly(a, b)
    ensures HasPt(b.ts, r, p) && PtOf(b.ts, r, p) == PtOf(a.ts, r, p) && UpperUser(b.ts, r, p) && SameReach(a.ts, b.ts)
  {
    ReachPd(a, r, p);
    var t3, t2 := At(a.ts, r, p.i4).frame, PdOf(a.ts, r, p);
    var b1 := OpenLink(a, r, p.i4);
    var b2 := OpenLink(b1, t3, p.i3);
    b := OpenLink(b2, t2, p.i2);
    OpensTransitive(a, b1, b2);
    OpensTransitive(a, b2, b);
  }

  /** Links lead from `r` to a page directory for `p`. */
  predicate HasPd(ts: Tables, r: Frame, p: Page) {
    var e4 := At(ts, r, p.i4);
    e4.flags.present && At(ts, e4.frame, p.i3).flags.present
  }

  function PdOf(ts: Tables, r: Frame, p: Page): Frame {
    At(ts, At(ts, r, p.i4).frame, p.i3).frame
  }

  lemma ReachPd(a: Vm, r: Frame, p: Page)
    requires Good(a) && IsRoot(a.place, r) && HasPd(a.ts, r, p)
    ensures At(a.ts, r, p.i4).frame in a.ts && a.place[At(a.ts, r, p.i4).frame] == Pdpt(p.i4)
    ensures PdOf(a.ts, r, p) in a.ts && a.place[PdOf(a.ts, r, p)] == Pd(p.i4, p.i3)
  {
    EntryAt(a, r, p.i4);
    EntryAt(a, At(a.ts, r, p.i4).frame, p.i3);
  }

  // ----- Which tables a root reaches -----

  /** The walk from `r` along the place of `t` arrives at `t`. */
  predicate Touches(ts: Tables, place: Places, r: Frame, t: Frame)
    requires t in place
  {
    match place[t]
    case Root => t == r
    case Pdpt(a) => At(ts, r, a).flags.present && At(ts, r, a).frame == t
    case Pd(a, b) => HasPd(ts, r, Page(a, b, 0, 0)) && PdOf(ts, r, Page(a, b, 0, 0)) == t
    case Pt(a, b, c) => HasPt(ts, r, Page(a, b, c, 0)) && PtOf(ts, r, Page(a, b, c, 0)) == t
  }

  /** Tables that `root` does not reach are left alone. */
  ghost predicate KeepsOthers(a: Vm, b: Vm, root: Frame) {
    forall f :: f in a.place && !Touches(a.ts, a.place, root, f) ==> f in b.ts && f in a.ts && b.ts[f] == a.ts[f]
  }

  /** Growth never makes an old table reachable from a root that did not reach it. */
  lemma TouchesBack(a: Vm, b: Vm, r: Frame, t: Frame)
    requires Good(a) && Good(b) && Extends(a, b) && IsRoot(a.place, r) && t in a.place
    requires Touches(b.ts, b.place, r, t)
    ensures Touches(a.ts, a.place, r, t)
  {
    match a.place[t] {
      case Root =>
      case Pdpt(x) =>
        EntryAt(b, r, x);
      case Pd(x, y) =>
        EntryAt(b, r, x);
        var t3 := At(b.ts, r, x).frame;
        EntryAt(b, t3, y);
      case Pt(x, y, z) =>
        EntryAt(b, r, x);
        var t3 := At(b.ts, r, x).frame;
        EntryAt(b, t3, y);
        var t2 := At(b.ts, t3, y).frame;
        EntryAt(b, t2, z);
    }
  }

  lemma OneTable(a: Vm, b: Vm, root: Frame, t: Frame)
    requires Good(a) && t in a.place && Touches(a.ts, a.place, root, t)
    requires forall f :: f in a.ts && f != t ==> f in b.ts && b.ts[f] == a.ts[f]
    ensures KeepsOthers(a, b, root)
  {
  }

  lemma OthersTransitive(a: Vm, b: Vm, c: Vm, root: Frame)
    requires Good(a) && Good(b) && Extends(a, b) && IsRoot(a.place, root)
    requires KeepsOthers(a, b, root) && KeepsOthers(b, c, root)
    ensures KeepsOthers(a, c, root)
  {
    forall f | f in a.place && !Touches(a.ts, a.place, root, f)
      ensures f in c.ts && f in a.ts && c.ts[f] == a.ts[f]
    {
      if Touches(b.ts, b.place, root, f) {
        TouchesBack(a, b, root, f);
      }
    }
  }
}

