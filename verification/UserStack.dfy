/**
  The initial stack of a program: strings, auxiliary vector, pointer tables and
  argument count, stored downwards from the top of the stack.
 */
module UserStack {
  import opened Paths
  import opened Frames
  import opened ElfSpec

  const TOP: nat := 0x7FF0_0000
  const SIZE: nat := 0x2_0000
  const LOW: nat := TOP - SIZE
  const MAX_STRINGS: nat := 15
  const AT_PAGESZ: U64 := 6
  const AT_RANDOM: U64 := 25

  function Seed(): (s: seq<byte>)
    ensures |s| == 16
  {
    [0x11, 0x22, 0x33, 0x44, 0x55, 0x66, 0x77, 0x88, 0x99, 0xaa, 0xbb, 0xcc, 0xdd, 0xee, 0xff, 0x00]
  }

  // ----- The stack as a program reads it -----

  type Memory = m: seq<byte> | |m| == SIZE witness seq(SIZE, _ => 0)

  function BytesAt(m: Memory, a: nat, n: nat): (s: seq<byte>)
    requires LOW <= a && a + n <= TOP
    ensures |s| == n
  {
    m[a - LOW..a - LOW + n]
  }

  function WordAt(m: Memory, a: nat): U64
    requires LOW <= a && a + 8 <= TOP
  {
    Word(BytesAt(m, a, 8))
  }

  function StringAt(m: Memory, a: nat): Str
    requires LOW <= a <= TOP
  {
    CStr(m[a - LOW..])
  }

  /** The strings that a table of pointers at `a` leads to, up to its null pointer. */
  function Strings(m: Memory, a: nat): seq<Str>
    requires LOW <= a
    decreases TOP - a
  {
    if a + 8 > TOP then []
    else
      var w := WordAt(m, a);
      if w < LOW || w > TOP then [] else [StringAt(m, w)] + Strings(m, a + 8)
  }

  // ----- Room -----

  function Round16(n: nat): nat { (n + 15) / 16 * 16 }

  /** The room that the strings take. */
  function Room(ss: seq<Str>): nat { if ss == [] then 0 else Room(ss[..|ss| - 1]) + Round16(|ss[|ss| - 1]| + 1) }

  function FirstOnes(ss: seq<Str>): seq<Str> { if |ss| > MAX_STRINGS then ss[..MAX_STRINGS] else ss }

  /** Everything fits below the top of the stack. */
  predicate Fits(argv: seq<Str>, envp: seq<Str>) {
    Room(FirstOnes(argv)) + Room(FirstOnes(envp)) + 64 + 8 * (|FirstOnes(argv)| + |FirstOnes(envp)| + 3) <= SIZE
  }

  // ----- Where the stack pointer ends -----

  /** `sp -= len; sp &= ~0xF;` on a pointer that may leave the stack. */
  function Lowered(sp: int, len: nat): int { (sp - len) / 16 * 16 }

  /** The pointer after storing the strings in order, each with its NUL. */
  function AfterStrings(sp: int, ss: seq<Str>): int {
    if ss == [] then sp else Lowered(AfterStrings(sp, ss[..|ss| - 1]), |ss[|ss| - 1]| + 1)
  }

  /** The pointer that the code ends with, its lowest store: strings, random bytes, three pairs, two tables and the count. */
  function FinalSp(argv: seq<Str>, envp: seq<Str>): int {
    var av, ev := FirstOnes(argv), FirstOnes(envp);
    var sp := AfterStrings(AfterStrings(TOP, ev), av);
    Lowered(Lowered(Lowered(Lowered(sp, 16), 16), 16), 16) - 8 * (|ev| + 1) - 8 * (|av| + 1) - 8
  }

  lemma {:induction false} StringsTakeRoom(sp: int, ss: seq<Str>)
    requires sp % 16 == 0
    ensures AfterStrings(sp, ss) == sp - Room(ss) && AfterStrings(sp, ss) % 16 == 0
  {
    hide Round16, Lowered;
    if ss != [] {
      StringsTakeRoom(sp, ss[..|ss| - 1]);
      LoweredBy(AfterStrings(sp, ss[..|ss| - 1]), |ss[|ss| - 1]| + 1);
    }
  }

  lemma LoweredBy(sp: int, len: nat)
    requires sp % 16 == 0
    ensures Lowered(sp, len) == sp - Round16(len) && Lowered(sp, len) % 16 == 0
  {
  }

  /** The code stores below its stack if and only if not everything fits. */
  lemma BelowTheStackIff(argv: seq<Str>, envp: seq<Str>)
    ensures FinalSp(argv, envp) < LOW <==> !Fits(argv, envp)
    ensures var av, ev := FirstOnes(argv), FirstOnes(envp);
      FinalSp(argv, envp) == TOP - Room(ev) - Room(av) - 64 - 8 * (|ev| + 1) - 8 * (|av| + 1) - 8
  {
    hide Round16, Lowered, FirstOnes;
    var av, ev := FirstOnes(argv), FirstOnes(envp);
    StringsTakeRoom(TOP, ev);
    StringsTakeRoom(AfterStrings(TOP, ev), av);
    SixteenBytes();
    var sp := AfterStrings(AfterStrings(TOP, ev), av);
    LoweredBy(sp, 16);
    LoweredBy(sp - 16, 16);
    LoweredBy(sp - 32, 16);
    LoweredBy(sp - 48, 16);
  }

  /** What `exec` passes on: strings of at most 255 bytes. They fit, however many there are. */
  lemma ExecFits(argv: seq<Str>, envp: seq<Str>)
    requires (forall s :: s in argv ==> |s| <= 255) && (forall s :: s in envp ==> |s| <= 255)
    ensures Fits(argv, envp)
  {
    hide Room;
    assert forall s :: s in FirstOnes(argv) ==> s in argv;
    assert forall s :: s in FirstOnes(envp) ==> s in envp;
    RoomBound(FirstOnes(argv));
    RoomBound(FirstOnes(envp));
  }

  lemma {:induction false} RoomBound(ss: seq<Str>)
    requires forall s :: s in ss ==> |s| <= 255
    ensures Room(ss) <= 256 * |ss|
  {
    if ss != [] {
      assert forall s :: s in ss[..|ss| - 1] ==> s in ss;
      assert ss[|ss| - 1] in ss;
      RoomBound(ss[..|ss| - 1]);
    }
  }

  lemma {:induction false} RoomOfPrefix(ss: seq<Str>, n: nat)
    requires n <= |ss|
    ensures Room(ss[..n]) <= Room(ss)
  {
    hide Round16;
    if n < |ss| {
      RoomOfPrefix(ss[..|ss| - 1], n);
      assert ss[..|ss| - 1][..n] == ss[..n];
    } else {
      assert ss[..n] == ss;
    }
  }

  lemma AlignedPush(sp: nat, len: nat)
    requires sp % 16 == 0 && Round16(len) <= sp
    ensures (sp - len) / 16 * 16 == sp - Round16(len) && Round16(len) % 16 == 0 && len <= Round16(len)
  {
  }

  // ----- What was stored stays -----

  /** From address `a` on, memory is as before. */
  predicate Above(m: Memory, n: Memory, a: nat)
    requires LOW <= a <= TOP
  {
    m[a - LOW..] == n[a - LOW..]
  }

  lemma AboveKeeps(m: Memory, n: Memory, a: nat, x: nat, len: nat)
    requires LOW <= a <= x && x + len <= TOP && Above(m, n, a)
    ensures BytesAt(n, x, len) == BytesAt(m, x, len)
  {
    assert m[a - LOW..][x - a..x - a + len] == m[x - LOW..x - LOW + len];
    assert n[a - LOW..][x - a..x - a + len] == n[x - LOW..x - LOW + len];
  }

  lemma AboveFrom(m: Memory, n: Memory, a: nat, b: nat)
    requires LOW <= a <= b <= TOP && Above(m, n, a)
    ensures Above(m, n, b)
  {
    assert m[a - LOW..][b - a..] == m[b - LOW..];
    assert n[a - LOW..][b - a..] == n[b - LOW..];
  }

  lemma AboveChain(m: Memory, n: Memory, o: Memory, a: nat, b: nat)
    requires LOW <= b <= a <= TOP && Above(m, n, a) && Above(n, o, b)
    ensures Above(m, o, a)
  {
    AboveFrom(n, o, b, a);
  }

  /** Pointer `p` leads to the string `s`, at or above `sp`. */
  predicate Holds(m: Memory, sp: nat, p: nat, s: Str) {
    LOW <= sp <= p && p + |s| + 1 <= TOP && BytesAt(m, p, |s| + 1) == s + [NUL]
  }

  predicate HoldsAll(m: Memory, sp: nat, ps: seq<U64>, ss: seq<Str>) {
    |ps| == |ss| && forall i :: 0 <= i < |ps| ==> Holds(m, sp, ps[i], ss[i])
  }

  lemma HoldsKept(m: Memory, n: Memory, sp: nat, sp': nat, ps: seq<U64>, ss: seq<Str>)
    requires LOW <= sp' <= sp <= TOP && HoldsAll(m, sp, ps, ss) && Above(m, n, sp)
    ensures HoldsAll(n, sp', ps, ss)
  {
    hide BytesAt, Above;
    forall i | 0 <= i < |ps|
      ensures Holds(n, sp', ps[i], ss[i])
    {
      assert Holds(m, sp, ps[i], ss[i]);
      AboveKeeps(m, n, sp, ps[i], |ss[i]| + 1);
    }
  }

  /** The words of a table are stored at `a`. */
  predicate TableAt(m: Memory, a: nat, ws: seq<U64>) {
    LOW <= a && a + 8 * |ws| <= TOP && forall i :: 0 <= i < |ws| ==> EntryIs(m, a, i, ws[i])
  }

  predicate EntryIs(m: Memory, a: nat, i: nat, w: U64) { LOW <= a && a + 8 * i + 8 <= TOP && WordAt(m, a + 8 * i) == w }

  lemma TableKept(m: Memory, n: Memory, sp: nat, a: nat, ws: seq<U64>)
    requires LOW <= sp <= a && sp <= TOP && TableAt(m, a, ws) && Above(m, n, sp)
    ensures TableAt(n, a, ws)
  {
    hide BytesAt, Above;
    forall i | 0 <= i < |ws|
      ensures EntryIs(n, a, i, ws[i])
    {
      assert EntryIs(m, a, i, ws[i]);
      AboveKeeps(m, n, sp, a + 8 * i, 8);
    }
  }

  /** A word in front of a table. */
  lemma TableGrows(m: Memory, a: nat, w: U64, ws: seq<U64>)
    requires LOW + 8 <= a && TableAt(m, a, ws) && WordAt(m, a - 8) == w
    ensures TableAt(m, a - 8, [w] + ws)
  {
    hide WordAt;
    forall i | 0 <= i < |ws| + 1
      ensures EntryIs(m, a - 8, i, ([w] + ws)[i])
    {
      if i > 0 {
        assert EntryIs(m, a, i - 1, ws[i - 1]);
      }
    }
  }

  /** A reader of a null-terminated table of pointers to strings recovers the strings. */
  lemma {:induction false} TableReadsBack(m: Memory, sp: nat, a: nat, ps: seq<U64>, ss: seq<Str>)
    requires HoldsAll(m, sp, ps, ss) && TableAt(m, a, ps + [0]) && forall s :: s in ss ==> NoNul(s)
    ensures Strings(m, a) == ss
    decreases |ps|
  {
    hide WordAt, StringAt, Strings, TableAt, HoldsAll, EntryIs, BytesAt;
    HeadOfTable(m, sp, a, ps, ss);
    StringsStep(m, a);
    if ps != [] {
      StringReadsBack(m, sp, ps[0], ss[0]);
      assert ss[0] in ss && forall s :: s in ss[1..] ==> s in ss;
      RestOfTable(m, sp, a, ps, ss);
      TableReadsBack(m, sp, a + 8, ps[1..], ss[1..]);
      assert ss == [ss[0]] + ss[1..];
    }
  }

  lemma HeadOfTable(m: Memory, sp: nat, a: nat, ps: seq<U64>, ss: seq<Str>)
    requires HoldsAll(m, sp, ps, ss) && TableAt(m, a, ps + [0])
    ensures LOW <= a && a + 8 <= TOP && |ps| == |ss| && WordAt(m, a) == (if ps == [] then 0 else ps[0])
    ensures ps != [] ==> Holds(m, sp, ps[0], ss[0])
  {
    hide WordAt, BytesAt, Holds;
    assert EntryIs(m, a, 0, (ps + [0])[0]);
  }

  lemma StringsStep(m: Memory, a: nat)
    requires LOW <= a && a + 8 <= TOP
    ensures var w := WordAt(m, a);
      Strings(m, a) == if w < LOW || w > TOP then [] else [StringAt(m, w)] + Strings(m, a + 8)
  {
    hide WordAt, StringAt;
  }

  lemma RestOfTable(m: Memory, sp: nat, a: nat, ps: seq<U64>, ss: seq<Str>)
    requires ps != [] && HoldsAll(m, sp, ps, ss) && TableAt(m, a, ps + [0])
    ensures HoldsAll(m, sp, ps[1..], ss[1..]) && TableAt(m, a + 8, ps[1..] + [0])
  {
    hide WordAt, BytesAt;
    forall i | 0 <= i < |ps|
      ensures EntryIs(m, a + 8, i, (ps[1..] + [0])[i])
    {
      assert EntryIs(m, a, i + 1, (ps + [0])[i + 1]);
    }
    forall i | 0 <= i < |ps| - 1
      ensures Holds(m, sp, ps[1..][i], ss[1..][i])
    {
      assert Holds(m, sp, ps[i + 1], ss[i + 1]);
    }
  }

  lemma StringReadsBack(m: Memory, sp: nat, p: nat, s: Str)
    requires Holds(m, sp, p, s) && NoNul(s)
    ensures LOW <= p <= TOP && StringAt(m, p) == s
  {
    var tail := m[p - LOW + |s| + 1..];
    CStrOf(s, tail);
    assert m[p - LOW..] == BytesAt(m, p, |s| + 1) + tail;
  }

  /** The whole stack at `sp`, as section 3.4.1 of the System V AMD64 ABI lays it out. */
  ghost predicate InitialStack(m: Memory, sp: nat, argv: seq<Str>, envp: seq<Str>) {
    var argc, envc := |argv|, |envp|;
    var aux := sp + 8 * (argc + envc + 3);
    && LOW <= sp && aux + 48 <= TOP
    && WordAt(m, sp) == argc
    && Strings(m, sp + 8) == argv && WordAt(m, sp + 8 + 8 * argc) == 0
    && Strings(m, sp + 16 + 8 * argc) == envp && WordAt(m, sp + 16 + 8 * argc + 8 * envc) == 0
    && WordAt(m, aux) == AT_PAGESZ && WordAt(m, aux + 8) == PAGE_SIZE
    && WordAt(m, aux + 16) == AT_RANDOM
    && LOW <= WordAt(m, aux + 24) && WordAt(m, aux + 24) + 16 <= TOP && BytesAt(m, WordAt(m, aux + 24), 16) == Seed()
    && WordAt(m, aux + 32) == 0 && WordAt(m, aux + 40) == 0
  }

  /** The word at `a` lies on the stack and is `w`. */
  ghost predicate ReadsWord(m: Memory, a: nat, w: U64) { 0x7FEE_0000 <= a && a + 8 <= 0x7FF0_0000 && WordAt(m, a) == w }

  /** The word at `a` points to the string `s`. */
  ghost predicate ReadsString(m: Memory, a: nat, s: Str) {
    && 0x7FEE_0000 <= a && a + 8 <= 0x7FF0_0000
    && 0x7FEE_0000 <= WordAt(m, a) <= 0x7FF0_0000 && CStr(m[WordAt(m, a) - 0x7FEE_0000..]) == s
  }

  /** The word at `a` points to the 16 random bytes. */
  ghost predicate ReadsRandom(m: Memory, a: nat) {
    && 0x7FEE_0000 <= a && a + 8 <= 0x7FF0_0000 && 0x7FEE_0000 <= WordAt(m, a) && WordAt(m, a) + 16 <= 0x7FF0_0000
    && m[WordAt(m, a) - 0x7FEE_0000..][..16] == [0x11, 0x22, 0x33, 0x44, 0x55, 0x66, 0x77, 0x88, 0x99, 0xaa, 0xbb, 0xcc, 0xdd, 0xee, 0xff, 0x00]
  }

  lemma {:induction false} TableEntries(m: Memory, a: nat, ss: seq<Str>, i: nat)
    requires LOW <= a && Strings(m, a) == ss && i < |ss|
    ensures ReadsString(m, a + 8 * i, ss[i])
    decreases i
  {
    hide WordAt;
    if i > 0 {
      TableEntries(m, a + 8, ss[1..], i - 1);
    }
  }

  /**
    What a program finds on its stack, address by address: the counts are the numbers of
    strings passed, 15 where there are more, and the tables lead to the first ones in order.
   */
  lemma ProgramFinds(m: Memory, sp: nat, argv: seq<Str>, envp: seq<Str>)
    requires InitialStack(m, sp, FirstOnes(argv), FirstOnes(envp))
    ensures var argc, envc := if |argv| < 15 then |argv| else 15, if |envp| < 15 then |envp| else 15;
      && ReadsWord(m, sp, argc)
      && (forall i :: 0 <= i < argc ==> ReadsString(m, sp + 8 + 8 * i, argv[i]))
      && ReadsWord(m, sp + 8 + 8 * argc, 0)
      && (forall i :: 0 <= i < envc ==> ReadsString(m, sp + 16 + 8 * argc + 8 * i, envp[i]))
      && ReadsWord(m, sp + 16 + 8 * argc + 8 * envc, 0)
    ensures var aux := sp + 24 + 8 * |FirstOnes(argv)| + 8 * |FirstOnes(envp)|;
      && ReadsWord(m, aux, 6) && ReadsWord(m, aux + 8, 4096) && ReadsWord(m, aux + 16, 25) && ReadsRandom(m, aux + 24)
      && ReadsWord(m, aux + 32, 0) && ReadsWord(m, aux + 40, 0)
  {
    hide WordAt, BytesAt, Strings, ReadsString, Seed, FirstOnes;
    FirstFifteen(argv);
    FirstFifteen(envp);
    var av, ev := FirstOnes(argv), FirstOnes(envp);
    forall i | 0 <= i < |av|
      ensures ReadsString(m, sp + 8 + 8 * i, argv[i])
    {
      TableEntries(m, sp + 8, av, i);
    }
    forall i | 0 <= i < |ev|
      ensures ReadsString(m, sp + 16 + 8 * |av| + 8 * i, envp[i])
    {
      TableEntries(m, sp + 16 + 8 * |av|, ev, i);
    }
    SeedRead(m, sp + 48 + 8 * |av| + 8 * |ev|);
  }

  lemma SeedRead(m: Memory, a: nat)
    requires LOW <= a && a + 8 <= TOP && LOW <= WordAt(m, a) && WordAt(m, a) + 16 <= TOP && BytesAt(m, WordAt(m, a), 16) == Seed()
    ensures ReadsRandom(m, a)
  {
    hide WordAt;
  }

  /** The strings passed, or the first 15 of them. */
  lemma FirstFifteen(ss: seq<Str>)
    ensures |ss| <= 15 ==> FirstOnes(ss) == ss
    ensures |ss| > 15 ==> FirstOnes(ss) == ss[..15]
  {
  }

  lemma AboveRefl(m: Memory, a: nat)
    requires LOW <= a <= TOP
    ensures Above(m, m, a)
  {
  }

  lemma HoldsHere(m: Memory, sp: nat, s: Str)
    requires LOW <= sp && sp + |s| + 1 <= TOP && BytesAt(m, sp, |s| + 1) == s + [NUL]
    ensures Holds(m, sp, sp, s)
  {
  }

  /** One more word in front of the part of a table stored so far. */
  lemma TablePushed(m0: Memory, m1: Memory, m2: Memory, sp: nat, a: nat, ws: seq<U64>, j: nat)
    requires LOW + 8 <= a <= sp <= TOP && j < |ws| && TableAt(m1, a, ws[j + 1..]) && WordAt(m2, a - 8) == ws[j]
    requires Above(m0, m1, sp) && Above(m1, m2, a)
    ensures TableAt(m2, a - 8, ws[j..]) && Above(m0, m2, sp)
  {
    hide WordAt, Above, TableAt;
    TableKept(m1, m2, a, a, ws[j + 1..]);
    TableGrows(m2, a, ws[j], ws[j + 1..]);
    assert [ws[j]] + ws[j + 1..] == ws[j..];
    AboveChain(m0, m1, m2, sp, a);
  }

  function AuxWords(random: U64): (ws: seq<U64>)
    ensures |ws| == 6
  {
    [AT_PAGESZ, PAGE_SIZE, AT_RANDOM, random, 0, 0]
  }

  predicate AuxAt(m: Memory, aux: nat, random: U64) {
    TableAt(m, aux, AuxWords(random)) && LOW <= aux && random == aux + 48 && random + 16 <= TOP && BytesAt(m, random, 16) == Seed()
  }

  lemma SixteenBytes()
    ensures Round16(16) == 16
  {
  }

  lemma EmptyTable(m: Memory, a: nat, ws: seq<U64>)
    requires LOW <= a <= TOP && |ws| == 6
    ensures TableAt(m, a, ws[6..])
  {
  }

  lemma AuxKept(m: Memory, n: Memory, aux: nat, random: U64)
    requires AuxAt(m, aux, random) && Above(m, n, aux)
    ensures AuxAt(n, aux, random)
  {
    hide Above, TableAt, BytesAt, AuxWords;
    TableKept(m, n, aux, aux, AuxWords(random));
    AboveKeeps(m, n, aux, random, 16);
  }

  lemma FirstNoNul(ss: seq<Str>)
    requires forall s :: s in ss ==> NoNul(s)
    ensures forall s :: s in FirstOnes(ss) ==> NoNul(s)
  {
  }

  lemma ReadsBack(m: Memory, sp: nat, aps: seq<U64>, eps: seq<U64>, av: seq<Str>, ev: seq<Str>, random: U64)
    requires LOW <= sp <= TOP && HoldsAll(m, sp, aps, av) && HoldsAll(m, sp, eps, ev)
    requires TableAt(m, sp + 8, aps + [0]) && TableAt(m, sp + 16 + 8 * |av|, eps + [0])
    requires WordAt(m, sp) == |av| && AuxAt(m, sp + 8 * (|av| + |ev| + 3), random)
    requires (forall s :: s in av ==> NoNul(s)) && (forall s :: s in ev ==> NoNul(s))
    ensures InitialStack(m, sp, av, ev)
  {
    hide WordAt, BytesAt, Holds, Strings, Seed;
    TableReadsBack(m, sp, sp + 8, aps, av);
    TableReadsBack(m, sp, sp + 16 + 8 * |av|, eps, ev);
    assert EntryIs(m, sp + 8, |aps|, (aps + [0])[|aps|]);
    assert EntryIs(m, sp + 16 + 8 * |av|, |eps|, (eps + [0])[|eps|]);
    var aux, ws := sp + 8 * (|av| + |ev| + 3), AuxWords(random);
    assert EntryIs(m, aux, 0, ws[0]) && EntryIs(m, aux, 1, ws[1]) && EntryIs(m, aux, 2, ws[2]);
    assert EntryIs(m, aux, 3, ws[3]) && EntryIs(m, aux, 4, ws[4]) && EntryIs(m, aux, 5, ws[5]);
  }

  lemma EndAligned(sp: nat, n: nat)
    requires sp % 16 == 0 && 64 + 8 * (n + 3) <= sp
    ensures (sp - 64 - 8 * (n + 3)) % 16 == 0 <==> n % 2 == 1
  {
    var k, m := sp / 16, n / 2;
    if n % 2 == 1 {
      assert sp - 64 - 8 * (n + 3) == 16 * (k - m - 6);
    } else {
      assert sp - 64 - 8 * (n + 3) == 16 * (k - m - 6) + 8;
    }
  }

  /** The memories after each part was stored, and that the whole stack is there in the last. */
  lemma StackReads(m1: Memory, m2: Memory, m3: Memory, m4: Memory, m5: Memory, m6: Memory,
                   sp1: nat, sp2: nat, aux: nat, envpOut: nat, argvOut: nat,
                   eps: seq<U64>, aps: seq<U64>, ev: seq<Str>, av: seq<Str>, random: U64)
    requires LOW + 8 <= argvOut && argvOut + 8 * (|av| + 1) == envpOut && envpOut + 8 * (|ev| + 1) == aux && aux + 64 == sp2 && sp2 <= sp1 <= TOP
    requires HoldsAll(m1, sp1, eps, ev) && Above(m1, m2, sp1) && HoldsAll(m2, sp2, aps, av) && Above(m2, m3, sp2)
    requires AuxAt(m3, aux, random) && Above(m3, m4, aux) && TableAt(m4, envpOut, eps + [0]) && Above(m4, m5, envpOut)
    requires TableAt(m5, argvOut, aps + [0]) && Above(m5, m6, argvOut) && WordAt(m6, argvOut - 8) == |av|
    requires (forall s :: s in av ==> NoNul(s)) && (forall s :: s in ev ==> NoNul(s))
    ensures InitialStack(m6, argvOut - 8, av, ev)
  {
    hide WordAt, BytesAt, Above, EntryIs, Holds, HoldsAll, TableAt, AuxAt, InitialStack;
    AboveFrom(m5, m6, argvOut, envpOut);
    AboveChain(m4, m5, m6, envpOut, envpOut);
    TableKept(m5, m6, argvOut, argvOut, aps + [0]);
    TableKept(m4, m6, envpOut, envpOut, eps + [0]);
    AboveFrom(m4, m6, envpOut, aux);
    AboveChain(m3, m4, m6, aux, aux);
    AuxKept(m3, m6, aux, random);
    AboveFrom(m3, m6, aux, sp2);
    AboveChain(m2, m3, m6, sp2, sp2);
    HoldsKept(m2, m6, sp2, argvOut - 8, aps, av);
    AboveFrom(m2, m6, sp2, sp1);
    AboveChain(m1, m2, m6, sp1, sp1);
    HoldsKept(m1, m6, sp1, argvOut - 8, eps, ev);
    ReadsBack(m6, argvOut - 8, aps, eps, av, ev, random);
  }

  class Stack {
    var mem: Memory

    /** A store of bytes at address `a`. */
    method Store(a: nat, s: seq<byte>)
      requires LOW <= a && a + |s| <= TOP
      modifies this
      ensures BytesAt(mem, a, |s|) == s && Above(old(mem), mem, a + |s|)
    {
      var i := a - LOW;
      mem := mem[..i] + s + mem[i + |s|..];
    }

    /** `sp -= len; sp &= ~0xF;` and a copy of `s` to there. */
    method PushBytes(sp: nat, s: seq<byte>) returns (sp': nat)
      requires LOW <= sp <= TOP && sp % 16 == 0 && Round16(|s|) <= sp - LOW
      modifies this
      ensures sp' == sp - Round16(|s|) && sp' % 16 == 0 && LOW <= sp' && sp' + |s| <= sp
      ensures BytesAt(mem, sp', |s|) == s && Above(old(mem), mem, sp)
    {
      AlignedPush(sp, |s|);
      sp' := (sp - |s|) / 16 * 16;
      Store(sp', s);
      AboveFrom(old(mem), mem, sp' + |s|, sp);
    }

    method PushWord(sp: nat, w: U64) returns (sp': nat)
      requires LOW + 8 <= sp <= TOP
      modifies this
      ensures sp' == sp - 8 && WordAt(mem, sp') == w && Above(old(mem), mem, sp)
    {
      hide Above;
      sp' := sp - 8;
      EightBytes();
      LeInvertsStore(w, 8);
      Store(sp', ToLe(w, 8));
    }

    /** Stores the strings, each with its NUL, and returns where they are. */
    method PushStrings(sp: nat, ss: seq<Str>) returns (sp': nat, ps: seq<U64>)
      requires LOW <= sp <= TOP && sp % 16 == 0 && Room(ss) <= sp - LOW
      modifies this
      ensures sp' == sp - Room(ss) && sp' % 16 == 0 && LOW <= sp'
      ensures |ps| == |ss| && HoldsAll(mem, sp', ps, ss) && Above(old(mem), mem, sp)
    {
      hide BytesAt, Above, Round16, Holds;
      ps := [];
      sp' := sp;
      AboveRefl(mem, sp);
      var i := 0;
      while i < |ss|
        invariant i <= |ss| && sp' == sp - Room(ss[..i]) && sp' % 16 == 0 && LOW <= sp'
        invariant HoldsAll(mem, sp', ps, ss[..i]) && Above(old(mem), mem, sp)
      {
        ghost var m1, sp1 := mem, sp';
        RoomOfPrefix(ss, i + 1);
        assert ss[..i + 1][..i] == ss[..i];
        sp' := PushBytes(sp', ss[i] + [NUL]);
        AboveChain(old(mem), m1, mem, sp, sp1);
        HoldsKept(m1, mem, sp1, sp', ps, ss[..i]);
        assert Holds(mem, sp', sp', ss[i]) by { HoldsHere(mem, sp', ss[i]); }
        ps := ps + [sp'];
        i := i + 1;
      }
      assert ss[..i] == ss;
    }

    /** Stores the pointers and a null pointer behind them, last first. */
    method PushTable(sp: nat, ps: seq<U64>) returns (sp': nat)
      requires LOW <= sp <= TOP && 8 * (|ps| + 1) <= sp - LOW
      modifies this
      ensures sp' == sp - 8 * (|ps| + 1) && TableAt(mem, sp', ps + [0]) && Above(old(mem), mem, sp)
    {
      hide WordAt, Above, EntryIs;
      var ws := ps + [0];
      sp' := sp;
      AboveRefl(mem, sp);
      var j := |ps|;
      while j > 0
        invariant 0 <= j <= |ps| && sp' == sp - 8 * (|ps| - j)
        invariant TableAt(mem, sp', ws[j + 1..]) && Above(old(mem), mem, sp)
      {
        ghost var m1, sp1 := mem, sp';
        sp' := PushWord(sp', ws[j]);
        TablePushed(old(mem), m1, mem, sp, sp1, ws, j);
        j := j - 1;
      }
      ghost var m1, sp1 := mem, sp';
      sp' := PushWord(sp', ws[0]);
      TablePushed(old(mem), m1, mem, sp, sp1, ws, 0);
      assert ws[0..] == ws;
    }

    /**
      Builds the initial stack for at most 15 arguments and 15 environment strings;
      `mapped` tells whether the stack's pages could be mapped. The code does not look
      whether everything fits: `astray` is set where its pointer would end below the
      stack, and the model stops before it stores there.
     */
    method Build(argv: seq<Str>, envp: seq<Str>, mapped: bool)
      returns (sp: nat, argc: nat, argvOut: nat, envpOut: nat, astray: bool)
      requires (forall s :: s in argv ==> NoNul(s)) && (forall s :: s in envp ==> NoNul(s))
      modifies this
      ensures !mapped ==> sp == 0 && mem == old(mem)
      ensures astray <==> mapped && FinalSp(argv, envp) < LOW
      ensures mapped && !astray ==> sp == FinalSp(argv, envp)
      ensures mapped && !astray ==>
        && InitialStack(mem, sp, FirstOnes(argv), FirstOnes(envp))
        && argc == |FirstOnes(argv)| && argvOut == sp + 8 && envpOut == sp + 16 + 8 * argc
        && (sp % 16 == 0 <==> (|FirstOnes(argv)| + |FirstOnes(envp)|) % 2 == 1)
    {
      hide WordAt, BytesAt, Above, EntryIs, Holds, Strings, Round16, HoldsAll, TableAt, Seed, InitialStack, Room, AuxAt, FirstOnes, FinalSp, Fits;
      sp, argc, argvOut, envpOut, astray := 0, 0, 0, 0, false;
      if !mapped {
        return;
      }
      var av, ev := FirstOnes(argv), FirstOnes(envp);
      BelowTheStackIff(argv, envp);
      astray := !Fits(argv, envp);
      if astray {
        return;
      }
      sp := TOP;
      var sp1, eps := PushStrings(sp, ev);
      ghost var m1 := mem;
      var sp2, aps := PushStrings(sp1, av);
      ghost var m2 := mem;
      var aux, random := PushAux(sp2);
      ghost var m3 := mem;
      envpOut := PushTable(aux, eps);
      ghost var m4 := mem;
      argvOut := PushTable(envpOut, aps);
      ghost var m5 := mem;
      argc := |av|;
      sp := PushWord(argvOut, argc);
      FirstNoNul(argv);
      FirstNoNul(envp);
      EndAligned(sp2, |av| + |ev|);
      StackReads(m1, m2, m3, m4, m5, mem, sp1, sp2, aux, envpOut, argvOut, eps, aps, ev, av, random);
    }

    /** The random bytes and the auxiliary vector. */
    method PushAux(sp: nat) returns (aux: nat, random: U64)
      requires LOW + 64 <= sp <= TOP && sp % 16 == 0
      modifies this
      ensures aux == sp - 64 && random == sp - 16 && AuxAt(mem, aux, random) && Above(old(mem), mem, sp)
    {
      hide WordAt, BytesAt, Above, TableAt, Seed;
      ghost var m0, ws := mem, AuxWords(sp - 16);
      SixteenBytes();
      random := PushBytes(sp, Seed());
      ghost var m1 := mem;
      AboveRefl(m1, random);
      EmptyTable(m1, random, ws);
      aux := PushWord(random, 0);
      ghost var m2 := mem;
      TablePushed(m1, m1, m2, random, random, ws, 5);
      aux := PushWord(aux, 0);
      ghost var m3 := mem;
      TablePushed(m1, m2, m3, random, random - 8, ws, 4);
      aux := PushWord(aux, random);
      ghost var m4 := mem;
      TablePushed(m1, m3, m4, random, random - 16, ws, 3);
      aux := PushWord(aux, AT_RANDOM);
      ghost var m5 := mem;
      TablePushed(m1, m4, m5, random, random - 24, ws, 2);
      aux := PushWord(aux, PAGE_SIZE);
      ghost var m6 := mem;
      TablePushed(m1, m5, m6, random, random - 32, ws, 1);
      aux := PushWord(aux, AT_PAGESZ);
      TablePushed(m1, m6, mem, random, random - 40, ws, 0);
      assert ws[0..] == ws;
      AboveKeeps(m1, mem, random, random, 16);
      AboveChain(m0, m1, mem, sp, random);
    }
  }
}
