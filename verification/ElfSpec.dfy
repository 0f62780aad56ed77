/**
  ELF64 images as values: what the headers say, and which byte an image leaves at
  each address of the fixed window.
 */
module ElfSpec {
  import opened Frames
  import Paths

  type byte = Paths.byte

  const EHDR_SIZE: nat := 64
  const PHDR_SIZE: nat := 56
  const PT_LOAD: nat := 1
  const EM_X86_64: nat := 0x3E

  // ----- Little-endian numbers -----

  function Le(s: seq<byte>): nat { if s == [] then 0 else s[0] as nat + 256 * Le(s[1..]) }

  function Pow256(n: nat): nat { if n == 0 then 1 else 256 * Pow256(n - 1) }

  lemma {:induction false} LeBound(s: seq<byte>)
    ensures Le(s) < Pow256(|s|)
  {
    if s != [] {
      LeBound(s[1..]);
    }
  }

  /** The low `n` bytes of `v`. */
  function ToLe(v: nat, n: nat): (s: seq<byte>)
    ensures |s| == n
  {
    if n == 0 then [] else [(v % 256) as byte] + ToLe(v / 256, n - 1)
  }

  /** A number that fits is read back from the bytes it was stored as. */
  lemma {:induction false} LeInvertsStore(v: nat, n: nat)
    requires v < Pow256(n)
    ensures Le(ToLe(v, n)) == v
  {
    if n > 0 {
      LeInvertsStore(v / 256, n - 1);
      assert ToLe(v, n)[1..] == ToLe(v / 256, n - 1);
    }
  }

  lemma EightBytes()
    ensures Pow256(8) == TWO64
  {
    assert Pow256(4) == 0x1_0000_0000;
    assert Pow256(8) == 256 * (256 * (256 * (256 * Pow256(4))));
  }

  function Word(s: seq<byte>): U64
    requires |s| == 8
  {
    EightBytes();
    LeBound(s);
    Le(s)
  }

  // ----- Headers -----

  datatype Phdr = Phdr(kind: nat, flags: nat, offset: U64, vaddr: U64, filesz: U64, memsz: U64)

  function ParsePhdr(s: seq<byte>): Phdr
    requires |s| == PHDR_SIZE
  {
    Phdr(Le(s[0..4]), Le(s[4..8]), Word(s[8..16]), Word(s[16..24]), Word(s[32..40]), Word(s[40..48]))
  }

  /** `elf_check_hdr`: a little-endian 64-bit executable or shared object for x86-64. */
  predicate HeaderOk(h: seq<byte>)
    requires |h| == EHDR_SIZE
  {
    h[..4] == [0x7F, 0x45, 0x4C, 0x46] && h[4] == 2 && h[5] == 1
    && (Le(h[16..18]) == 2 || Le(h[16..18]) == 3) && Le(h[18..20]) == EM_X86_64
  }

  /** Program header `i`, if the file is long enough to hold it. */
  function PhdrAt(file: seq<byte>, i: nat): Paths.Option<Phdr>
    requires |file| >= EHDR_SIZE
  {
    var off := (Word(file[32..40]) + i * PHDR_SIZE) % TWO64;
    if off + PHDR_SIZE <= |file| then Paths.Some(ParsePhdr(file[off..off + PHDR_SIZE])) else Paths.None
  }

  function PhdrCount(file: seq<byte>): nat
    requires |file| >= EHDR_SIZE
  {
    Le(file[56..58])
  }

  predicate Loads(file: seq<byte>, i: nat)
    requires |file| >= EHDR_SIZE
  {
    PhdrAt(file, i).Some? && PhdrAt(file, i).value.kind == PT_LOAD
  }

  // ----- Written headers are read as what was written -----

  /** Numbers are stored with their lowest byte first. */
  lemma LowestByteFirst()
    ensures Le([0x78, 0x56, 0x34, 0x12]) == 0x1234_5678
  {
    assert Le([0x12]) == 0x12;
    assert [0x34, 0x12][1..] == [0x12] && Le([0x34, 0x12]) == 0x1234;
    assert [0x56, 0x34, 0x12][1..] == [0x34, 0x12] && Le([0x56, 0x34, 0x12]) == 0x12_3456;
    assert [0x78, 0x56, 0x34, 0x12][1..] == [0x56, 0x34, 0x12];
  }

  /** A program header as the format lays it out, with the physical address and the alignment that the kernel skips. */
  function PhdrBytes(kind: nat, flags: nat, offset: nat, vaddr: nat, paddr: nat, filesz: nat, memsz: nat, align: nat): (s: seq<byte>)
    ensures |s| == 56
  {
    ToLe(kind, 4) + ToLe(flags, 4) + ToLe(offset, 8) + ToLe(vaddr, 8) + ToLe(paddr, 8)
    + ToLe(filesz, 8) + ToLe(memsz, 8) + ToLe(align, 8)
  }

  lemma FourAndEight()
    ensures Pow256(2) == 0x1_0000 && Pow256(4) == 0x1_0000_0000 && Pow256(8) == TWO64
  {
    EightBytes();
  }

  /** Every program header is read field by field. */
  lemma PhdrReads(kind: nat, flags: nat, offset: U64, vaddr: U64, paddr: U64, filesz: U64, memsz: U64, align: U64)
    requires kind < 0x1_0000_0000 && flags < 0x1_0000_0000
    ensures ParsePhdr(PhdrBytes(kind, flags, offset, vaddr, paddr, filesz, memsz, align)) == Phdr(kind, flags, offset, vaddr, filesz, memsz)
  {
    hide Le, ToLe, Pow256;
    FourAndEight();
    var s := PhdrBytes(kind, flags, offset, vaddr, paddr, filesz, memsz, align);
    assert s[0..4] == ToLe(kind, 4) && s[4..8] == ToLe(flags, 4) && s[8..16] == ToLe(offset, 8);
    assert s[16..24] == ToLe(vaddr, 8) && s[32..40] == ToLe(filesz, 8) && s[40..48] == ToLe(memsz, 8);
    LeInvertsStore(kind, 4);
    LeInvertsStore(flags, 4);
    LeInvertsStore(offset, 8);
    LeInvertsStore(vaddr, 8);
    LeInvertsStore(filesz, 8);
    LeInvertsStore(memsz, 8);
  }

  /** The fields of a file header behind its 16 identifying bytes, in order. */
  datatype Ehdr = Ehdr(
    kind: nat, machine: nat, version: nat, entry: U64, phoff: U64, shoff: U64, flags: nat,
    ehsize: nat, phentsize: nat, phnum: nat, shentsize: nat, shnum: nat, shstrndx: nat)

  function EhdrBytes(ident: seq<byte>, h: Ehdr): (s: seq<byte>)
    requires |ident| == 16
    ensures |s| == 64
  {
    ident + ToLe(h.kind, 2) + ToLe(h.machine, 2) + ToLe(h.version, 4) + ToLe(h.entry, 8) + ToLe(h.phoff, 8) + ToLe(h.shoff, 8)
    + ToLe(h.flags, 4) + ToLe(h.ehsize, 2) + ToLe(h.phentsize, 2) + ToLe(h.phnum, 2) + ToLe(h.shentsize, 2) + ToLe(h.shnum, 2)
    + ToLe(h.shstrndx, 2)
  }

  /**
    Every file header is read field by field: it is accepted exactly with the magic bytes,
    class 2, encoding 1, type 2 or 3 and machine 62, and it gives the entry, the place of
    the program headers and their number.
   */
  lemma EhdrReads(ident: seq<byte>, h: Ehdr)
    requires |ident| == 16 && h.kind < 0x1_0000 && h.machine < 0x1_0000 && h.phnum < 0x1_0000
    ensures var s := EhdrBytes(ident, h);
      && (HeaderOk(s) <==>
            ident[0] == 0x7F && ident[1] == 'E' as int as byte && ident[2] == 'L' as int as byte && ident[3] == 'F' as int as byte
            && ident[4] == 2 && ident[5] == 1 && (h.kind == 2 || h.kind == 3) && h.machine == 62)
      && Word(s[24..32]) == h.entry && Word(s[32..40]) == h.phoff && Le(s[56..58]) == h.phnum
  {
    hide Le, ToLe, Pow256;
    FourAndEight();
    var s := EhdrBytes(ident, h);
    EhdrParts(ident, h);
    LeInvertsStore(h.kind, 2);
    LeInvertsStore(h.machine, 2);
    LeInvertsStore(h.entry, 8);
    LeInvertsStore(h.phoff, 8);
    LeInvertsStore(h.phnum, 2);
    assert s[..4] == [ident[0], ident[1], ident[2], ident[3]];
  }

  lemma EhdrParts(ident: seq<byte>, h: Ehdr)
    requires |ident| == 16
    ensures var s := EhdrBytes(ident, h);
      s[..16] == ident && s[16..18] == ToLe(h.kind, 2) && s[18..20] == ToLe(h.machine, 2) && s[24..32] == ToLe(h.entry, 8)
      && s[32..40] == ToLe(h.phoff, 8) && s[56..58] == ToLe(h.phnum, 2)
  {
    hide ToLe;
  }

  /** The program headers of a file lie one behind the other, 56 bytes each, from the place that the file header gives. */
  lemma WrittenPhdr(file: seq<byte>, ident: seq<byte>, h: Ehdr, i: nat, kind: nat, flags: nat, offset: U64, vaddr: U64,
                    paddr: U64, filesz: U64, memsz: U64, align: U64)
    requires |ident| == 16 && h.kind < 0x1_0000 && h.machine < 0x1_0000 && h.phnum < 0x1_0000
    requires 64 <= |file| < TWO64 && file[..64] == EhdrBytes(ident, h) && h.phoff + i * 56 + 56 <= |file|
    requires file[h.phoff + i * 56..h.phoff + i * 56 + 56] == PhdrBytes(kind, flags, offset, vaddr, paddr, filesz, memsz, align)
    requires kind < 0x1_0000_0000 && flags < 0x1_0000_0000
    ensures PhdrCount(file) == h.phnum && PhdrAt(file, i) == Paths.Some(Phdr(kind, flags, offset, vaddr, filesz, memsz))
  {
    hide Le, Word, EhdrBytes, PhdrBytes, ParsePhdr, HeaderOk;
    EhdrReads(ident, h);
    PhdrReads(kind, flags, offset, vaddr, paddr, filesz, memsz, align);
    assert file[..64][32..40] == file[32..40] && file[..64][56..58] == file[56..58];
  }

  // ----- Segments -----

  function SegStart(ph: Phdr): nat { AlignDown(ph.vaddr) }

  function SegEnd(ph: Phdr): nat { AlignDown((ph.vaddr + ph.memsz + PAGE_SIZE - 1) % TWO64) }

  function FileEnd(ph: Phdr): nat { (ph.vaddr + ph.filesz) % TWO64 }

  /** The pages of the segment lie in the window for fixed images. */
  predicate InWindow(ph: Phdr) { USER_IMAGE_PHYS_START <= SegStart(ph) && SegEnd(ph) <= USER_IMAGE_PHYS_END }

  predicate InSegment(ph: Phdr, a: nat) { SegStart(ph) <= a < SegEnd(ph) }

  /** The first address that the copy into the page of `a` fills. */
  function CopyStart(ph: Phdr, a: nat): nat { if AlignDown(a) < ph.vaddr then ph.vaddr else AlignDown(a) }

  /** The file part of the segment covers `a`. */
  predicate InFilePart(ph: Phdr, a: nat) { ph.vaddr <= a < FileEnd(ph) }

  /** Where in the file the byte for `a` is looked for. */
  function FileAt(ph: Phdr, a: nat): nat
    requires ph.vaddr <= a
  {
    (ph.offset + (CopyStart(ph, a) - ph.vaddr)) % TWO64 + (a - CopyStart(ph, a))
  }

  /**
    The byte that the segment leaves at `a`: from the file below the end of the file
    part, else zero. Where the file is too short, `stale` gives the byte that the copy
    buffer happened to hold.
   */
  function SegByte(ph: Phdr, file: seq<byte>, stale: nat -> byte, a: nat): byte
  {
    if InFilePart(ph, a) then
      if FileAt(ph, a) < |file| then file[FileAt(ph, a)] else stale(a)
    else 0
  }

  /** The byte at `a` after the first `n` program headers, given the byte before: the last segment on the page counts. */
  function ImageByte(file: seq<byte>, n: nat, stale: nat -> byte, before: byte, a: nat): byte
    requires |file| >= EHDR_SIZE
  {
    if n == 0 then before
    else if Loads(file, n - 1) && InSegment(PhdrAt(file, n - 1).value, a) then SegByte(PhdrAt(file, n - 1).value, file, stale, a)
    else ImageByte(file, n - 1, stale, before, a)
  }

  /** A segment as the format demands it: within the address space, no longer in the file than in memory, and in the file. */
  predicate Proper(ph: Phdr, file: seq<byte>) {
    ph.vaddr + ph.memsz + PAGE_SIZE - 1 < TWO64 && ph.filesz <= ph.memsz && ph.offset + ph.filesz <= |file| && |file| < TWO64
  }

  /**
    Unless its end wraps around, a segment has the pages that its bytes in memory meet,
    and the loader accepts its place exactly if these lie in [4 MiB, 8 MiB).
   */
  lemma SegmentPages(ph: Phdr, a: nat)
    requires ph.vaddr + ph.memsz + 4095 < TWO64
    ensures InSegment(ph, a) <==> ph.vaddr / 4096 <= a / 4096 && a / 4096 * 4096 < ph.vaddr + ph.memsz
    ensures ph.memsz > 0 ==> (InWindow(ph) <==> 0x40_0000 <= ph.vaddr && ph.vaddr + ph.memsz <= 0x80_0000)
  {
    var end := ph.vaddr + ph.memsz;
    PagesBelow(ph.vaddr, a);
    PagesUpTo(end, a);
    if ph.memsz > 0 {
      assert 0x400 <= ph.vaddr / 4096 <==> 0x40_0000 <= ph.vaddr;
      assert (end + 4095) / 4096 <= 0x800 <==> end <= 0x80_0000;
    }
  }

  lemma PagesBelow(v: nat, a: nat)
    ensures v / 4096 * 4096 <= a <==> v / 4096 <= a / 4096
  {
  }

  lemma PagesUpTo(end: nat, a: nat)
    ensures a < (end + 4095) / 4096 * 4096 <==> a / 4096 * 4096 < end
  {
  }

  /** The pages of a proper segment hold its file bytes at its address and zero elsewhere. */
  lemma SegmentRule(ph: Phdr, file: seq<byte>, stale: nat -> byte, a: nat)
    requires Proper(ph, file)
    ensures ph.vaddr <= a < ph.vaddr + ph.memsz ==> InSegment(ph, a)
    ensures SegByte(ph, file, stale, a) ==
      if ph.vaddr <= a < ph.vaddr + ph.filesz then file[ph.offset + (a - ph.vaddr)] else 0
  {
    hide AlignDown, InSegment;
    if ph.vaddr <= a < ph.vaddr + ph.memsz {
      InOwnPages(ph, a);
    }
    if InFilePart(ph, a) {
      OwnPage(a);
      assert CopyStart(ph, a) <= a;
      assert FileAt(ph, a) == ph.offset + (a - ph.vaddr);
    }
  }

  lemma OwnPage(a: nat)
    ensures AlignDown(a) <= a < AlignDown(a) + PAGE_SIZE
  {
  }

  lemma InOwnPages(ph: Phdr, a: nat)
    requires ph.vaddr <= a < ph.vaddr + ph.memsz && ph.vaddr + ph.memsz + PAGE_SIZE - 1 < TWO64
    ensures InSegment(ph, a)
  {
    SegmentPages(ph, a);
    assert ph.vaddr / 4096 <= a / 4096;
  }

  /**
    The byte at `a` is what the buffer happened to hold if and only if the file part
    covers `a` and the file ends before its place.
   */
  lemma StaleIff(ph: Phdr, file: seq<byte>, stale: nat -> byte, a: nat)
    ensures (InFilePart(ph, a) && FileAt(ph, a) >= |file|) <==> SegByte(ph, file, _ => 0, a) != SegByte(ph, file, _ => 1, a)
    ensures InFilePart(ph, a) && FileAt(ph, a) >= |file| ==> SegByte(ph, file, stale, a) == stale(a)
  {
    hide FileEnd, FileAt;
  }

  /** A segment whose file part reaches past the end of the file leaves such a byte at its end. */
  lemma ShortFileIsStale(ph: Phdr, file: seq<byte>, stale: nat -> byte)
    requires ph.vaddr + ph.memsz + PAGE_SIZE - 1 < TWO64 && 0 < ph.filesz <= ph.memsz
    requires |file| < ph.offset + ph.filesz <= TWO64
    ensures var last := ph.vaddr + ph.filesz - 1; InSegment(ph, last) && SegByte(ph, file, stale, last) == stale(last)
  {
    var last := ph.vaddr + ph.filesz - 1;
    assert AlignDown(last) <= last < AlignDown(last) + PAGE_SIZE;
  }

  /** An image with one segment of one byte, for `at`, cut off behind its program header: the byte would be the next. */
  function ShortImage(at: U64): (s: seq<byte>)
    ensures |s| == EHDR_SIZE + PHDR_SIZE
  {
    ShortEhdr(at) + ShortPhdr(at)
  }

  function ShortEhdr(at: U64): (s: seq<byte>)
    ensures |s| == EHDR_SIZE
  {
    EhdrBytes([0x7F, 0x45, 0x4C, 0x46, 2, 1, 0, 0, 0, 0, 0, 0, 0, 0, 0, 0], ShortHeader(at))
  }

  function ShortHeader(at: U64): Ehdr { Ehdr(2, EM_X86_64, 1, at, 64, 0, 0, 64, 56, 1, 0, 0, 0) }

  function ShortPhdr(at: U64): (s: seq<byte>)
    ensures |s| == PHDR_SIZE
  {
    PhdrBytes(PT_LOAD, 6, 120, at, at, 1, 1, 4096)
  }

  /** Its headers are in order and its segment is loadable, but the byte that it leaves is the buffer's. */
  lemma ShortImageIsStale(at: U64, stale: nat -> byte, before: byte)
    requires at + PAGE_SIZE < TWO64
    ensures var file := ShortImage(at);
      HeaderOk(file[..EHDR_SIZE]) && PhdrCount(file) == 1 && PhdrAt(file, 0) == Paths.Some(Phdr(PT_LOAD, 6, 120, at, 1, 1))
      && ImageByte(file, 1, stale, before, at) == stale(at)
  {
    hide SegByte, InSegment, HeaderOk, ParsePhdr, ShortEhdr, ShortPhdr, Word, Le;
    var file, ph := ShortImage(at), Phdr(PT_LOAD, 6, 120, at, 1, 1);
    ShortEhdrReads(at);
    ShortPhdrReads(at);
    assert file[..EHDR_SIZE] == ShortEhdr(at) && file[32..40] == ShortEhdr(at)[32..40] && file[56..58] == ShortEhdr(at)[56..58];
    assert file[EHDR_SIZE..EHDR_SIZE + PHDR_SIZE] == ShortPhdr(at);
    ShortFileIsStale(ph, file, stale);
  }

  lemma ShortEhdrReads(at: U64)
    ensures var h := ShortEhdr(at);
      HeaderOk(h) && Word(h[32..40]) == 64 && Le(h[56..58]) == 1
  {
    hide Le, EhdrBytes;
    EhdrReads([0x7F, 0x45, 0x4C, 0x46, 2, 1, 0, 0, 0, 0, 0, 0, 0, 0, 0, 0], ShortHeader(at));
  }

  lemma ShortPhdrReads(at: U64)
    ensures ParsePhdr(ShortPhdr(at)) == Phdr(PT_LOAD, 6, 120, at, 1, 1)
  {
    PhdrReads(PT_LOAD, 6, 120, at, at, 1, 1, 4096);
  }

  /** No page belongs to two of the first `n` segments. */
  ghost predicate PageDisjoint(file: seq<byte>, n: nat)
    requires |file| >= EHDR_SIZE
  {
    forall i, j, a: nat :: 0 <= i < j < n && Loads(file, i) && Loads(file, j) && InSegment(PhdrAt(file, i).value, a) ==>
      !InSegment(PhdrAt(file, j).value, a)
  }

  /** With page-disjoint segments each page holds its own segment, whatever the order of loading. */
  lemma {:induction false} DisjointImage(file: seq<byte>, n: nat, i: nat, stale: nat -> byte, before: byte, a: nat)
    requires |file| >= EHDR_SIZE && PageDisjoint(file, n)
    requires i < n && Loads(file, i) && InSegment(PhdrAt(file, i).value, a)
    ensures ImageByte(file, n, stale, before, a) == SegByte(PhdrAt(file, i).value, file, stale, a)
    decreases n
  {
    if n - 1 != i {
      DisjointImage(file, n - 1, i, stale, before, a);
    }
  }
}
