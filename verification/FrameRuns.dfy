/**
  Whole runs of the frame allocator, seen through the contracts of
  `FrameBitmap`: which frames are used and which pages are out on loan.
 */
module FrameRuns {
  import opened Frames

  /** `held` are the frames handed out as pages and not yet given back. */
  datatype Ledger = Ledger(used: set<nat>, held: set<nat>)

  datatype Event = GotPage(frame: nat) | GotTable(frame: nat) | Freed(frame: nat)

  predicate Enabled(l: Ledger, e: Event) {
    match e
    case GotPage(f) => f !in l.used
    case GotTable(f) => f !in l.used
    case Freed(f) => f in l.held
  }

  function Next(l: Ledger, e: Event): Ledger {
    match e
    case GotPage(f) => Ledger(l.used + {f}, l.held + {f})
    case GotTable(f) => Ledger(l.used + {f}, l.held)
    case Freed(f) => Ledger(l.used - {f}, l.held - {f})
  }

  predicate Run(l: Ledger, es: seq<Event>)
    decreases |es|
  {
    es == [] || (Enabled(l, es[0]) && Run(Next(l, es[0]), es[1..]))
  }

  function After(l: Ledger, es: seq<Event>): Ledger
    decreases |es|
  {
    if es == [] then l else After(Next(l, es[0]), es[1..])
  }

  predicate Hands(e: Event, f: nat) { e.frame == f && !e.Freed? }

  /** A call on a real bitmap that returns a page is an enabled step of the ledger. */
  method AllocPageStep(b: FrameBitmap, ghost l: Ledger) returns (page: nat, ghost m: Ledger)
    requires b.Valid() && l.used == b.used && l.held <= l.used
    modifies b.bits, b`used
    ensures b.Valid() && m.used == b.used && m.held <= m.used
    ensures page == 0 ==> m == l
    ensures page != 0 ==> Enabled(l, GotPage(page / PAGE_SIZE)) && m == Next(l, GotPage(page / PAGE_SIZE))
    ensures page != 0 ==> page / PAGE_SIZE != 0
  {
    page := b.AllocPage();
    m := if page == 0 then l else Next(l, GotPage(page / PAGE_SIZE));
  }

  method AllocTableStep(b: FrameBitmap, ghost l: Ledger) returns (page: nat, ghost m: Ledger)
    requires b.Valid() && l.used == b.used && l.held <= l.used
    modifies b.bits, b`used
    ensures b.Valid() && m.used == b.used && m.held <= m.used
    ensures page == 0 ==> m == l
    ensures page != 0 ==> Enabled(l, GotTable(page / PAGE_SIZE)) && m == Next(l, GotTable(page / PAGE_SIZE))
    ensures page != 0 ==> page / PAGE_SIZE != 0
  {
    page := b.AllocTable();
    m := if page == 0 then l else Next(l, GotTable(page / PAGE_SIZE));
  }

  method FreePageStep(b: FrameBitmap, page: nat, ghost l: Ledger) returns (ghost m: Ledger)
    requires b.Valid() && l.used == b.used && l.held <= l.used
    requires 0 !in l.held && page / PAGE_SIZE in l.held && page / PAGE_SIZE < b.total
    modifies b.bits, b`used
    ensures b.Valid() && m.used == b.used && m.held <= m.used
    ensures Enabled(l, Freed(page / PAGE_SIZE)) && m == Next(l, Freed(page / PAGE_SIZE))
  {
    b.FreePage(page);
    m := Next(l, Freed(page / PAGE_SIZE));
  }

  /** A frame that is used now is handed out later only if it is on loan now and was given back first. */
  lemma {:induction false} NoUsedFrameHandedOut(l: Ledger, es: seq<Event>, j: nat, f: nat)
    requires Run(l, es) && j < |es| && Hands(es[j], f) && f in l.used
    ensures f in l.held
    ensures exists k :: 0 <= k < j && es[k] == Freed(f)
    decreases |es|
  {
    if es[0] == Freed(f) {
    } else {
      assert j > 0;
      NoUsedFrameHandedOut(Next(l, es[0]), es[1..], j - 1, f);
      var k :| 0 <= k < j - 1 && es[1..][k] == Freed(f);
      assert es[k + 1] == Freed(f);
    }
  }

  /** Two hand-outs of one frame in a run have a give-back between them. */
  lemma {:induction false} HandOutsAreSeparated(l: Ledger, es: seq<Event>, i: nat, j: nat, f: nat)
    requires Run(l, es) && i < j < |es| && Hands(es[i], f) && Hands(es[j], f)
    ensures exists k :: i < k < j && es[k] == Freed(f)
    decreases |es|
  {
    if i == 0 {
      NoUsedFrameHandedOut(Next(l, es[0]), es[1..], j - 1, f);
      var k :| 0 <= k < j - 1 && es[1..][k] == Freed(f);
      assert es[k + 1] == Freed(f);
    } else {
      HandOutsAreSeparated(Next(l, es[0]), es[1..], i - 1, j - 1, f);
      var k :| i - 1 < k < j - 1 && es[1..][k] == Freed(f);
      assert es[k + 1] == Freed(f);
    }
  }

  /** The frames used but not on loan (boot reservations, page tables) only grow, and none is handed out again. */
  lemma {:induction false} ReservedStaysReserved(l: Ledger, es: seq<Event>)
    requires Run(l, es)
    ensures l.used - l.held <= After(l, es).used - After(l, es).held
    ensures forall j, f :: 0 <= j < |es| && f in l.used - l.held ==> !Hands(es[j], f)
    decreases |es|
  {
    if es != [] {
      ReservedStaysReserved(Next(l, es[0]), es[1..]);
      forall j, f | 0 <= j < |es| && f in l.used - l.held
        ensures !Hands(es[j], f)
      {
        var m := Next(l, es[0]);
        assert f in m.used - m.held;
        assert j > 0 ==> es[j] == es[1..][j - 1] && !Hands(es[1..][j - 1], f);
      }
    }
  }
}
