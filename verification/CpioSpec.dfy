/**
  The "newc" archive format as the kernel reads it, in its two parsers: one over
  an archive that is mapped at an address, one over offsets into physical memory.
 */
module CpioSpec {
  import opened Paths
  import opened VfsSpec
  import Vfs

  const HEADER: nat := 110
  const MODE_AT: nat := 14
  const FILESIZE_AT: nat := 54
  const NAMESIZE_AT: nat := 94
  const NAME_MAX: nat := 4096
  const LIMIT32: nat := 0x1_0000_0000
  const MAGIC: Str := [48, 55, 48, 55, 48, 49]
  const TRAILER: Str := [84, 82, 65, 73, 76, 69, 82, 33, 33, 33]

  // ----- Numbers -----

  function Digit(c: byte): (d: nat)
    ensures d < 16
  {
    if 48 <= c <= 57 then c as nat - 48
    else if 97 <= c <= 102 then c as nat - 97 + 10
    else if 65 <= c <= 70 then c as nat - 65 + 10
    else 0
  }

  /** A hexadecimal number in 32 bits; a character that is no digit counts as 0. */
  function ParseHex(s: seq<byte>): (v: nat)
    ensures v < LIMIT32
  {
    if s == [] then 0 else ParseHex(s[..|s| - 1]) * 16 % LIMIT32 + Digit(s[|s| - 1])
  }

  /** The bytes of a text in ASCII. */
  function Ascii(text: string): (s: Str)
    requires forall i :: 0 <= i < |text| ==> text[i] < 128 as char
    ensures |s| == |text|
  {
    seq(|text|, i requires 0 <= i < |text| => text[i] as int as byte)
  }

  /** Digits are read in both cases, and any other character as 0. */
  lemma DigitsSpelled(c: byte)
    ensures Ascii("0123456789abcdef")[Digit(c)] == c || Ascii("0123456789ABCDEF")[Digit(c)] == c || Digit(c) == 0
    ensures forall d :: 0 <= d < 16 ==> Digit(Ascii("0123456789abcdef")[d]) == d == Digit(Ascii("0123456789ABCDEF")[d])
  {
  }

  lemma TextsSpelled()
    ensures MAGIC == Ascii("070701") && TRAILER == Ascii("TRAILER!!!")
  {
  }

  function DigitChar(d: nat, upper: bool): byte
    requires d < 16
  {
    if d < 10 then (48 + d) as byte else if upper then (55 + d) as byte else (87 + d) as byte
  }

  /** `n` hexadecimal digits, in upper or in lower case. */
  function Hex(v: nat, n: nat, upper: bool): (s: seq<byte>)
    ensures |s| == n
    decreases n
  {
    if n == 0 then [] else Hex(v / 16, n - 1, upper) + [DigitChar(v % 16, upper)]
  }

  function Pow16(n: nat): nat { if n == 0 then 1 else 16 * Pow16(n - 1) }

  /** Reading inverts printing, in either case. */
  lemma {:induction false} ParseInvertsPrint(v: nat, n: nat, upper: bool)
    requires v < LIMIT32 && v < Pow16(n)
    ensures ParseHex(Hex(v, n, upper)) == v
    decreases n
  {
    if n > 0 {
      ParseInvertsPrint(v / 16, n - 1, upper);
      var s := Hex(v, n, upper);
      assert s[..|s| - 1] == Hex(v / 16, n - 1, upper);
    }
  }

  lemma EightDigits(v: nat, upper: bool)
    requires v < LIMIT32
    ensures ParseHex(Hex(v, 8, upper)) == v
  {
    assert Pow16(4) == 0x10000;
    assert Pow16(8) == 16 * (16 * (16 * (16 * Pow16(4))));
    ParseInvertsPrint(v, 8, upper);
  }

  /** The next multiple of 4, through a mask of 32 bits. */
  function Align4(v: nat): (a: nat)
    ensures v + 3 < LIMIT32 ==> v <= a < v + 4 && a % 4 == 0
  {
    (v + 3) % LIMIT32 / 4 * 4
  }

  /** Rounding up works up to the width of the mask and no further. */
  lemma AlignRoundsUpIff(v: nat)
    ensures Align4(v) >= v <==> v + 3 < LIMIT32
  {
    assert (v + 3) % LIMIT32 / 4 * 4 <= (v + 3) % LIMIT32 < LIMIT32;
  }

  lemma AlignShift(base: nat, v: nat)
    requires base % 4 == 0 && base + v + 3 < LIMIT32
    ensures Align4(base + v) == base + Align4(v)
  {
  }

  // ----- Names -----

  function SkipDots(s: Str): Str { if s != [] && s[0] == DOT then SkipDots(s[1..]) else s }

  /** The path an entry is installed at; none for a name of dots and slashes only. */
  function Normal(name: Str): (p: Option<Str>)
    ensures p.Some? ==> Absolute(p.value) && |p.value| <= |name| + 1
  {
    SkipDotsShrinks(name);
    var s := SkipSlash(SkipDots(name));
    if s == [] then None else Some([SLASH] + s)
  }

  lemma {:induction false} SkipDotsShrinks(s: Str)
    ensures |SkipDots(s)| <= |s| && SkipDots(s) == s[|s| - |SkipDots(s)|..]
  {
    if s != [] && s[0] == DOT {
      SkipDotsShrinks(s[1..]);
    }
  }

  lemma NormalNoNul(name: Str)
    requires NoNul(name)
    ensures Normal(name).Some? ==> NoNul(Normal(name).value) && Components(Normal(name).value) != []
  {
    hide SkipSlash, Components, SkipDots, NoNul;
    SkipDotsShrinks(name);
    NulPart(name, |name| - |SkipDots(name)|);
    var s := SkipSlash(SkipDots(name));
    SkipIsTail(SkipDots(name));
    NulPart(SkipDots(name), |SkipDots(name)| - |s|);
    if s != [] {
      SlashSkips(s);
      SkipPlain(s);
      NotAllSlashes([SLASH] + s);
      NulPrefix(s);
    }
  }

  /** Exactly leading dots and then slashes are dropped: `./etc/passwd`, `/etc/passwd` and `etc/passwd` are one path. */
  lemma NormalStrips(dots: nat, slashes: nat, rest: Str)
    requires rest != [] ==> rest[0] != SLASH && (slashes == 0 ==> rest[0] != DOT)
    ensures Normal(Repeat(DOT, dots) + Repeat(SLASH, slashes) + rest) == if rest == [] then None else Some([SLASH] + rest)
  {
    hide SkipDots, SkipSlash;
    var tail := Repeat(SLASH, slashes) + rest;
    assert Repeat(DOT, dots) + Repeat(SLASH, slashes) + rest == Repeat(DOT, dots) + tail;
    assert tail != [] ==> tail[0] != DOT;
    DotsSkipped(dots, tail);
    SlashesSkipped(slashes, rest);
  }

  lemma {:induction false} DotsSkipped(n: nat, tail: Str)
    requires tail != [] ==> tail[0] != DOT
    ensures SkipDots(Repeat(DOT, n) + tail) == tail
  {
    if n == 0 {
      assert Repeat(DOT, n) + tail == tail;
    } else {
      assert (Repeat(DOT, n) + tail)[1..] == Repeat(DOT, n - 1) + tail;
      DotsSkipped(n - 1, tail);
    }
  }

  lemma NulPrefix(s: Str)
    requires NoNul(s)
    ensures NoNul([SLASH] + s)
  {
  }

  lemma SkipPlain(s: Str)
    requires s != [] && s[0] != SLASH
    ensures SkipSlash(s) == s
  {
  }

  lemma NotAllSlashes(s: Str)
    requires SkipSlash(s) != []
    ensures Components(s) != []
  {
  }

  /** The test for the last entry: `strncmp (name, "TRAILER!!!", namesize - 1) == 0`. */
  predicate IsTrailer(name: seq<byte>)
    requires name != []
  {
    Vfs.SamePrefix(name[..|name| - 1], TRAILER, 0, |name| - 1)
  }

  lemma {:induction false} SamePrefixWhole(a: Str, b: Str, i: nat)
    requires i <= |a| && i <= |b| && NoNul(a) && NoNul(b)
    ensures Vfs.SamePrefix(a, b, i, |a| - i) <==> |a| <= |b| && a[i..] == b[i..|a|]
    decreases |a| - i
  {
    if i < |a| && i < |b| {
      SamePrefixWhole(a, b, i + 1);
      assert a[i..] == [a[i]] + a[i + 1..];
      assert |a| <= |b| ==> b[i..|a|] == [b[i]] + b[i + 1..|a|];
    }
  }

  /** Any prefix of the trailer's name ends the archive, the empty name included. */
  lemma TrailerIsAnyPrefix(name: Str)
    requires NoNul(name)
    ensures IsTrailer(name + [NUL]) <==> name <= TRAILER
  {
    assert (name + [NUL])[..|name|] == name;
    SamePrefixWhole(name, TRAILER, 0);
    assert name[0..] == name;
    assert |name| <= |TRAILER| ==> TRAILER[0..|name|] == TRAILER[..|name|];
  }

  // ----- Installing one entry -----

  function TypeBits(mode: nat): nat { mode / 0x1000 % 16 * 0x1000 }

  function Install(t: Tree, path: Str, mode: nat, data: seq<byte>): Made {
    if TypeBits(mode) == S_IFDIR then Mkdir(t, path, mode)
    else if TypeBits(mode) == S_IFLNK then
      if data == [] then Made(t, -1) else SymlinkAt(t, CStr(data), path)
    else if TypeBits(mode) == S_IFREG || TypeBits(mode) == 0 then
      Create(t, path, if TypeBits(mode) == 0 then mode + S_IFREG else mode, data)
    else Made(t, 0)
  }

  // ----- The parsers -----

  /** What one turn of a parser comes to; `Stray` when it reads outside what it was given. */
  datatype Step = Fail | Stop | Stray | Item(path: Option<Str>, mode: nat, data: seq<byte>, next: nat)

  /** The tree and the code at the end, or a parser that went astray. */
  datatype Outcome = Outcome(t: Tree, rc: int) | Lost

  function Field(image: seq<byte>, k: nat, f: nat): nat
    requires k + HEADER <= |image| && f + 8 <= HEADER
  {
    ParseHex(image[k + f..k + f + 8])
  }

  /** The entry at offset `k` for the parser that copies from physical memory. */
  function PhysStep(image: seq<byte>, k: nat): (s: Step)
    requires k + HEADER <= |image| && |image| + 3 < LIMIT32
    ensures s.Item? ==> k + HEADER < s.next
  {
    var namesize, filesize := Field(image, k, NAMESIZE_AT), Field(image, k, FILESIZE_AT);
    var at := k + HEADER;
    if image[k..k + 6] != MAGIC || namesize == 0 || namesize > NAME_MAX || at + namesize > |image| then Fail
    else
      var name := image[at..at + namesize];
      var from := Align4(at + namesize);
      if IsTrailer(name) then Stop
      else if from + filesize > |image| then Fail
      else if NUL !in name then Stray
      else Item(Normal(CStr(name)), Field(image, k, MODE_AT), image[from..from + filesize], Align4(from + filesize))
  }

  /** The entry at address `c` for the parser over an archive mapped at `base`. */
  function PointerStep(image: seq<byte>, base: nat, c: nat): (s: Step)
    requires base <= c && c + HEADER <= base + |image| && base + |image| + 3 < LIMIT32
    ensures s.Item? ==> c + HEADER < s.next
  {
    var k, end := c - base, base + |image|;
    var namesize, filesize := Field(image, k, NAMESIZE_AT), Field(image, k, FILESIZE_AT);
    var at := c + HEADER;
    if image[k..k + 6] != MAGIC || end - at < namesize || namesize == 0 then Fail
    else
      var name := image[at - base..at - base + namesize];
      var from := Align4(at + namesize);
      hide Align4, IsTrailer, ParseHex, CStr, Normal;
      if IsTrailer(name) then Stop
      else if from > end || end - from < filesize then Fail
      else if NUL !in image[at - base..] then Stray
      else Item(Normal(CStr(image[at - base..])), Field(image, k, MODE_AT),
                image[from - base..from - base + filesize], Align4(from + filesize))
  }

  function InstallItem(t: Tree, s: Step): Made
    requires s.Item?
  {
    if s.path.None? then Made(t, 0) else Install(t, s.path.value, s.mode, s.data)
  }

  /** The rest of `cpio_populate_vfs_phys`, at offset `k`. */
  function LoadPhys(t: Tree, image: seq<byte>, k: nat): Outcome
    requires |image| + 3 < LIMIT32
    decreases |image| - k
  {
    if k + HEADER > |image| then Outcome(t, -1)
    else
      match PhysStep(image, k)
      case Fail => Outcome(t, -1)
      case Stop => Outcome(t, 0)
      case Stray => Lost
      case Item(path, mode, data, next) =>
        var m := InstallItem(t, Item(path, mode, data, next));
        if m.rc != 0 then Outcome(m.t, m.rc) else LoadPhys(m.t, image, next)
  }

  /** The rest of `cpio_populate_vfs`, at address `c`. Behind the end, the size left wraps around and the parser reads on. */
  function LoadPointer(t: Tree, image: seq<byte>, base: nat, c: nat): Outcome
    requires base <= c && base + |image| + 3 < LIMIT32
    decreases base + |image| - c
  {
    if c > base + |image| then Lost
    else if base + |image| - c < HEADER then Outcome(t, -1)
    else
      match PointerStep(image, base, c)
      case Fail => Outcome(t, -1)
      case Stop => Outcome(t, 0)
      case Stray => Lost
      case Item(path, mode, data, next) =>
        var m := InstallItem(t, Item(path, mode, data, next));
        if m.rc != 0 then Outcome(m.t, m.rc) else LoadPointer(m.t, image, base, next)
  }

  lemma PhysUnfold(t: Tree, image: seq<byte>, k: nat)
    requires |image| + 3 < LIMIT32
    ensures LoadPhys(t, image, k) ==
      if k + HEADER > |image| then Outcome(t, -1)
      else
        var s := PhysStep(image, k);
        if s.Stray? then Lost
        else if !s.Item? then Outcome(t, if s.Stop? then 0 else -1)
        else
          var m := InstallItem(t, s);
          if m.rc != 0 then Outcome(m.t, m.rc) else LoadPhys(m.t, image, s.next)
  {
    hide PhysStep, InstallItem;
  }

  lemma PointerUnfold(t: Tree, image: seq<byte>, base: nat, c: nat)
    requires base <= c && base + |image| + 3 < LIMIT32
    ensures LoadPointer(t, image, base, c) ==
      if c > base + |image| then Lost
      else if c + HEADER > base + |image| then Outcome(t, -1)
      else
        var s := PointerStep(image, base, c);
        if s.Stray? then Lost
        else if !s.Item? then Outcome(t, if s.Stop? then 0 else -1)
        else
          var m := InstallItem(t, s);
          if m.rc != 0 then Outcome(m.t, m.rc) else LoadPointer(m.t, image, base, s.next)
  {
    hide PointerStep, InstallItem;
  }

  // ----- The two parsers agree -----

  /** From offset `k` on, every name is within the limit and ends within its size. */
  predicate NamesEnd(image: seq<byte>, k: nat)
    requires |image| + 3 < LIMIT32
    decreases |image| - k
  {
    k + HEADER <= |image| && image[k..k + 6] == MAGIC ==>
      var namesize := Field(image, k, NAMESIZE_AT);
      namesize <= NAME_MAX && PhysStep(image, k) != Stray
      && (PhysStep(image, k).Item? ==> NamesEnd(image, PhysStep(image, k).next))
  }

  /** The pointer parser's turn, in offsets from the base. */
  lemma PointerOffsets(image: seq<byte>, base: nat, k: nat)
    requires k + HEADER <= |image| && base + |image| + 3 < LIMIT32 && base % 4 == 0
    ensures PointerStep(image, base, base + k) ==
      var namesize, filesize := Field(image, k, NAMESIZE_AT), Field(image, k, FILESIZE_AT);
      var at := k + HEADER;
      if image[k..k + 6] != MAGIC || at + namesize > |image| || namesize == 0 then Fail
      else
        var from := Align4(at + namesize);
        if IsTrailer(image[at..at + namesize]) then Stop
        else if from + filesize > |image| then Fail
        else if NUL !in image[at..] then Stray
        else Item(Normal(CStr(image[at..])), Field(image, k, MODE_AT), image[from..from + filesize], base + Align4(from + filesize))
  {
    hide Field, IsTrailer, CStr, Normal, Align4;
    var namesize, filesize := Field(image, k, NAMESIZE_AT), Field(image, k, FILESIZE_AT);
    var at := k + HEADER;
    var end := base + |image|;
    assert base + k - base == k && base + k + HEADER - base == at && end - (base + at) == |image| - at;
    if at + namesize <= |image| {
      AlignShift(base, at + namesize);
      var from := Align4(at + namesize);
      assert base + from - base == from && end - (base + from) == |image| - from;
      if from + filesize <= |image| {
        AlignShift(base, from + filesize);
      }
    }
  }

  /** An entry that the physical parser reads is read alike by the other. */
  lemma TurnsAgree(image: seq<byte>, base: nat, k: nat)
    requires base % 4 == 0 && base + |image| + 3 < LIMIT32 && k + HEADER <= |image| && PhysStep(image, k).Item?
    ensures PointerStep(image, base, base + k) == PhysStep(image, k).(next := base + PhysStep(image, k).next)
    ensures PhysStep(image, k).next % 4 == 0 && PhysStep(image, k).next <= |image| + 3
  {
    hide IsTrailer, CStr, Normal, Align4, Field, PointerStep;
    PointerOffsets(image, base, k);
    var namesize, at := Field(image, k, NAMESIZE_AT), k + HEADER;
    assert image[at..][..namesize] == image[at..at + namesize];
    CStrWithin(image[at..], namesize);
  }

  /** One turn of both parsers. */
  lemma StepsAgree(image: seq<byte>, base: nat, k: nat)
    requires base % 4 == 0 && base + |image| + 3 < LIMIT32 && k + HEADER <= |image|
    requires image[k..k + 6] == MAGIC ==> Field(image, k, NAMESIZE_AT) <= NAME_MAX && PhysStep(image, k) != Stray
    ensures var p := PhysStep(image, k);
      PointerStep(image, base, base + k) == (if p.Item? then p.(next := base + p.next) else p) && p != Stray
  {
    hide IsTrailer, CStr, Normal, Align4, Field, PointerStep;
    if PhysStep(image, k).Item? {
      TurnsAgree(image, base, k);
    } else {
      PointerOffsets(image, base, k);
    }
  }

  /** From offset `k` on, no entry that goes in has padding that passes the end of the image. */
  predicate PaddingInside(t: Tree, image: seq<byte>, k: nat)
    requires |image| + 3 < LIMIT32
    decreases |image| - k
  {
    k + HEADER <= |image| && PhysStep(image, k).Item? && InstallItem(t, PhysStep(image, k)).rc == 0 ==>
      PhysStep(image, k).next <= |image|
      && PaddingInside(InstallItem(t, PhysStep(image, k)).t, image, PhysStep(image, k).next)
  }

  /**
    On every input, well-formed or not, both parsers return the same code and build
    the same tree if and only if no padding passes the end, given an aligned archive
    below 4 GiB whose names end within their sizes and keep to the limit of the
    physical parser. Otherwise the physical parser reports a missing trailer, and the
    pointer parser reads on behind the archive.
   */
  lemma {:induction false} ParsersAgreeIff(t: Tree, image: seq<byte>, base: nat, k: nat)
    requires base % 4 == 0 && base + |image| + 3 < LIMIT32 && k <= |image| && NamesEnd(image, k)
    ensures LoadPhys(t, image, k) != Lost
    ensures LoadPointer(t, image, base, base + k) == LoadPhys(t, image, k) <==> PaddingInside(t, image, k)
    ensures !PaddingInside(t, image, k) ==> LoadPhys(t, image, k).rc == -1 && LoadPointer(t, image, base, base + k) == Lost
    decreases |image| - k
  {
    hide PhysStep, PointerStep, InstallItem, Field, LoadPhys, LoadPointer, NamesEnd;
    PhysUnfold(t, image, k);
    PointerUnfold(t, image, base, base + k);
    if k + HEADER <= |image| {
      if image[k..k + 6] != MAGIC {
        NoMagic(image, base, k);
      } else {
        NamesUnfold(image, k);
        StepsAgree(image, base, k);
        var s := PhysStep(image, k);
        if s.Item? {
          TurnsAgree(image, base, k);
          ItemAgrees(t, s, PointerStep(image, base, base + k));
          if InstallItem(t, s).rc == 0 {
            if s.next > |image| {
              PaddingPastTheEnd(t, image, base, k);
            } else {
              ParsersAgreeIff(InstallItem(t, s).t, image, base, s.next);
            }
          }
        }
      }
    }
  }

  lemma NamesUnfold(image: seq<byte>, k: nat)
    requires |image| + 3 < LIMIT32 && NamesEnd(image, k) && k + HEADER <= |image| && image[k..k + 6] == MAGIC
    ensures Field(image, k, NAMESIZE_AT) <= NAME_MAX && PhysStep(image, k) != Stray
    ensures PhysStep(image, k).Item? ==> NamesEnd(image, PhysStep(image, k).next)
  {
    hide Field, PhysStep;
  }

  /** In an image whose size is a multiple of four no padding passes the end, and so the parsers agree. */
  lemma ParsersAgree(t: Tree, image: seq<byte>, base: nat, k: nat)
    requires base % 4 == 0 && |image| % 4 == 0 && base + |image| + 3 < LIMIT32 && k <= |image| && NamesEnd(image, k)
    ensures LoadPointer(t, image, base, base + k) == LoadPhys(t, image, k) != Lost
  {
    hide PhysStep, PointerStep, InstallItem, LoadPhys, LoadPointer, NamesEnd, PaddingInside;
    ParsersAgreeIff(t, image, base, k);
    AlignedIsInside(t, image, k);
  }

  lemma NextFour(a: nat, b: nat)
    requires a % 4 == 0 && b % 4 == 0 && a <= b + 3
    ensures a <= b
  {
  }

  lemma {:induction false} AlignedIsInside(t: Tree, image: seq<byte>, k: nat)
    requires |image| % 4 == 0 && |image| + 3 < LIMIT32
    ensures PaddingInside(t, image, k)
    decreases |image| - k
  {
    hide PhysStep, InstallItem, Field;
    if k + HEADER <= |image| && PhysStep(image, k).Item? {
      TurnsAgree(image, 0, k);
      NextFour(PhysStep(image, k).next, |image|);
      AlignedIsInside(InstallItem(t, PhysStep(image, k)).t, image, PhysStep(image, k).next);
    }
  }

  lemma NoMagic(image: seq<byte>, base: nat, k: nat)
    requires base + |image| + 3 < LIMIT32 && k + HEADER <= |image| && image[k..k + 6] != MAGIC
    ensures PhysStep(image, k) == Fail && PointerStep(image, base, base + k) == Fail
  {
  }

  lemma ItemAgrees(t: Tree, a: Step, b: Step)
    requires a.Item? && b.Item? && a.path == b.path && a.mode == b.mode && a.data == b.data
    ensures InstallItem(t, a) == InstallItem(t, b)
  {
  }

  /**
    Where the end is not aligned the parsers part: when the padding of an entry
    would reach past the end, the physical parser reports a missing trailer and
    the pointer parser reads on behind the archive.
   */
  lemma PaddingPastTheEnd(t: Tree, image: seq<byte>, base: nat, k: nat)
    requires base % 4 == 0 && base + |image| + 3 < LIMIT32 && k + HEADER <= |image| && PhysStep(image, k).Item?
    requires PhysStep(image, k).next > |image| && InstallItem(t, PhysStep(image, k)).rc == 0
    ensures |image| % 4 != 0 && LoadPointer(t, image, base, base + k) == Lost
    ensures LoadPhys(t, image, k) == Outcome(InstallItem(t, PhysStep(image, k)).t, -1)
  {
    hide LoadPhys, LoadPointer, InstallItem, PointerStep, PhysStep;
    PhysUnfold(t, image, k);
    PointerUnfold(t, image, base, base + k);
    TurnsAgree(image, base, k);
    ItemAgrees(t, PhysStep(image, k), PointerStep(image, base, base + k));
    var s := PhysStep(image, k);
    PhysUnfold(InstallItem(t, s).t, image, s.next);
    PointerUnfold(InstallItem(t, s).t, image, base, base + s.next);
  }
}
