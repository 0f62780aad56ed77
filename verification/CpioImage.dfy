/**
  Writing a "newc" archive, and reading it back: the parser sees exactly the
  entries that were written, one after the other.
 */
module CpioImage {
  import opened Paths
  import opened VfsSpec
  import opened CpioSpec

  /** The fields of a header that the kernel does not look at, and the case of its digits. */
  datatype Attributes = Attributes(
    ino: nat, uid: nat, gid: nat, nlink: nat, mtime: nat, devmajor: nat,
    devminor: nat, rdevmajor: nat, rdevminor: nat, check: nat, upper: bool)

  datatype Entry = Entry(name: Str, mode: nat, data: seq<byte>, attributes: Attributes)

  /** The 14 bytes before the mode, the 32 up to the file size, the 32 up to the name size. */
  function Front(a: Attributes): (s: seq<byte>)
    ensures |s| == MODE_AT && s[..6] == MAGIC
  {
    MAGIC + Hex(a.ino, 8, a.upper)
  }

  function Owner(a: Attributes): (s: seq<byte>)
    ensures |s| == FILESIZE_AT - MODE_AT - 8
  {
    Hex(a.uid, 8, a.upper) + Hex(a.gid, 8, a.upper) + Hex(a.nlink, 8, a.upper) + Hex(a.mtime, 8, a.upper)
  }

  function Devices(a: Attributes): (s: seq<byte>)
    ensures |s| == NAMESIZE_AT - FILESIZE_AT - 8
  {
    Hex(a.devmajor, 8, a.upper) + Hex(a.devminor, 8, a.upper) + Hex(a.rdevmajor, 8, a.upper) + Hex(a.rdevminor, 8, a.upper)
  }

  function Header(e: Entry): (s: seq<byte>)
    ensures |s| == HEADER
  {
    Front(e.attributes) + Hex(e.mode, 8, e.attributes.upper) + Owner(e.attributes) + Hex(|e.data|, 8, e.attributes.upper)
    + Devices(e.attributes) + Hex(|e.name| + 1, 8, e.attributes.upper) + Hex(e.attributes.check, 8, e.attributes.upper)
  }

  /** Padding behind `n` bytes. */
  function Pad(n: nat): (s: seq<byte>)
    ensures |s| < 4 && (n + |s|) % 4 == 0
  {
    seq((4 - n % 4) % 4, _ => NUL)
  }

  /** The head of a record: header, name and padding. */
  function Head(e: Entry): (s: seq<byte>)
    ensures |s| % 4 == 0 && |s| >= HEADER
  {
    hide Header, Pad;
    Header(e) + e.name + [NUL] + Pad(HEADER + |e.name| + 1)
  }

  function Record(e: Entry): seq<byte> { Head(e) + e.data + Pad(|e.data|) }

  /** The entry that ends an archive. */
  function Last(upper: bool): Entry { Entry(TRAILER, 0, [], Attributes(0, 0, 0, 1, 0, 0, 0, 0, 0, 0, upper)) }

  function Encode(entries: seq<Entry>, upper: bool): seq<byte> {
    if entries == [] then Record(Last(upper)) else Record(entries[0]) + Encode(entries[1..], upper)
  }

  lemma {:induction false} EncodeSize(entries: seq<Entry>, upper: bool)
    ensures |Encode(entries, upper)| % 4 == 0
  {
    hide Record, Last, Head, Header, Pad;
    RecordSize(Last(upper));
    if entries != [] {
      EncodeSize(entries[1..], upper);
      RecordSize(entries[0]);
      SumOfFours(|Record(entries[0])|, |Encode(entries[1..], upper)|);
    }
  }

  lemma SumOfFours(a: nat, b: nat)
    requires a % 4 == 0 && b % 4 == 0
    ensures (a + b) % 4 == 0
  {
  }

  /** An entry the format can hold, and whose name does not end the archive. */
  predicate Encodable(e: Entry) {
    NoNul(e.name) && |e.name| < NAME_MAX && !(e.name <= TRAILER) && e.mode < LIMIT32 && |e.data| < LIMIT32
  }

  // ----- Reading a record -----

  lemma HeaderFields(e: Entry)
    ensures var h := Header(e);
      h[..6] == MAGIC && h[MODE_AT..MODE_AT + 8] == Hex(e.mode, 8, e.attributes.upper)
      && h[FILESIZE_AT..FILESIZE_AT + 8] == Hex(|e.data|, 8, e.attributes.upper) && h[NAMESIZE_AT..NAMESIZE_AT + 8] == Hex(|e.name| + 1, 8, e.attributes.upper)
  {
    hide Hex, Front, Owner, Devices;
  }

  lemma SliceOfPrefix(image: seq<byte>, k: nat, part: seq<byte>, rest: seq<byte>, i: nat, j: nat)
    requires k <= |image| && image[k..] == part + rest && i <= j <= |part|
    ensures k + j <= |image| && image[k + i..k + j] == part[i..j]
  {
    assert image[k..][i..j] == image[k + i..k + j];
    assert (part + rest)[i..j] == part[i..j];
  }

  /** Where the parts of a record lie. */
  lemma RecordLayout(image: seq<byte>, k: nat, e: Entry, rest: seq<byte>)
    requires k <= |image| && image[k..] == Record(e) + rest
    ensures var n, d := |e.name| + 1, k + |Head(e)|;
      && k + |Record(e)| <= |image|
      && k + HEADER + n <= d && d + |e.data| <= |image|
      && image[k..k + HEADER] == Header(e) && image[k + HEADER..k + HEADER + n] == e.name + [NUL]
      && image[d..d + |e.data|] == e.data
  {
    hide Header, Pad, Record, Head;
    var n := |e.name| + 1;
    HeadIs(e);
    var head, tail := Head(e), e.data + Pad(|e.data|);
    RecordIs(e);
    assert image[k..] == head + (tail + rest);
    SliceOfPrefix(image, k, head, tail + rest, 0, HEADER);
    SliceOfPrefix(image, k, head, tail + rest, HEADER, HEADER + n);
    assert head[..HEADER] == Header(e);
    assert head[HEADER..HEADER + n] == e.name + [NUL];
    SliceOfPrefix(image, k, head + e.data, Pad(|e.data|) + rest, |head|, |head| + |e.data|);
    assert (head + e.data)[|head|..] == e.data;
  }

  lemma HeadIs(e: Entry)
    ensures Head(e) == Header(e) + e.name + [NUL] + Pad(HEADER + |e.name| + 1)
  {
  }

  lemma RecordIs(e: Entry)
    ensures Record(e) == Head(e) + e.data + Pad(|e.data|)
  {
  }

  /** The parts that make up a turn of the parser. */
  lemma ItemIs(image: seq<byte>, k: nat, name: Str, data: seq<byte>, from: nat)
    requires |image| + 3 < LIMIT32 && NoNul(name) && !(name <= TRAILER) && |name| < NAME_MAX
    requires k + HEADER + |name| + 1 <= from && from + |data| <= |image| && image[k..k + 6] == MAGIC
    requires Field(image, k, NAMESIZE_AT) == |name| + 1 && Field(image, k, FILESIZE_AT) == |data|
    requires image[k + HEADER..k + HEADER + |name| + 1] == name + [NUL] && image[from..from + |data|] == data
    requires Align4(k + HEADER + |name| + 1) == from
    ensures PhysStep(image, k) == Item(Normal(name), Field(image, k, MODE_AT), data, Align4(from + |data|))
  {
    hide IsTrailer, CStr, Normal, Align4, Field;
    TrailerIsAnyPrefix(name);
    CStrOf(name, []);
    assert name + [NUL] + [] == name + [NUL];
    assert (name + [NUL])[|name|] == NUL;
  }

  /** A written record is read as what was written, whatever follows it. */
  lemma RecordParses(image: seq<byte>, k: nat, e: Entry, rest: seq<byte>)
    requires k % 4 == 0 && k <= |image| && image[k..] == Record(e) + rest && |image| + 3 < LIMIT32 && Encodable(e)
    ensures k + HEADER <= |image|
    ensures PhysStep(image, k) == Item(Normal(e.name), e.mode, e.data, k + |Record(e)|)
    ensures image[k..k + 6] == MAGIC && Field(image, k, NAMESIZE_AT) <= NAME_MAX
  {
    hide Header, Pad, Record, Head, Normal, Align4, Field, PhysStep;
    RecordLayout(image, k, e, rest);
    FieldsOf(image, k, e);
    HeadSize(e);
    PaddedTo(k, HEADER + |e.name| + 1, |Head(e)|);
    RecordSize(e);
    SumOfFours(k, |Head(e)|);
    PaddedTo(k + |Head(e)|, |e.data|, |Record(e)| - |Head(e)|);
    ItemIs(image, k, e.name, e.data, k + |Head(e)|);
  }

  lemma FieldsOf(image: seq<byte>, k: nat, e: Entry)
    requires k + HEADER <= |image| && image[k..k + HEADER] == Header(e)
    requires e.mode < LIMIT32 && |e.data| < LIMIT32 && |e.name| < NAME_MAX
    ensures image[k..k + 6] == MAGIC && Field(image, k, MODE_AT) == e.mode
    ensures Field(image, k, FILESIZE_AT) == |e.data| && Field(image, k, NAMESIZE_AT) == |e.name| + 1
  {
    hide ParseHex, Hex, Header;
    HeaderFields(e);
    SliceOfSlice(image, k, 0, 6);
    SliceOfSlice(image, k, MODE_AT, MODE_AT + 8);
    SliceOfSlice(image, k, FILESIZE_AT, FILESIZE_AT + 8);
    SliceOfSlice(image, k, NAMESIZE_AT, NAMESIZE_AT + 8);
    EightDigits(e.mode, e.attributes.upper);
    EightDigits(|e.data|, e.attributes.upper);
    EightDigits(|e.name| + 1, e.attributes.upper);
  }

  lemma SliceOfSlice(image: seq<byte>, k: nat, i: nat, j: nat)
    requires k + HEADER <= |image| && i <= j <= HEADER
    ensures image[k..k + HEADER][i..j] == image[k + i..k + j]
  {
    var h, part := image[k..k + HEADER], image[k + i..k + j];
    assert forall x :: 0 <= x < j - i ==> h[i..j][x] == image[k + i + x] == part[x];
  }

  lemma HeadSize(e: Entry)
    ensures HEADER + |e.name| + 1 <= |Head(e)| < HEADER + |e.name| + 1 + 4
  {
  }

  lemma RecordSize(e: Entry)
    ensures |Head(e)| + |e.data| <= |Record(e)| < |Head(e)| + |e.data| + 4
    ensures (|Record(e)| - |Head(e)|) % 4 == 0 && |Record(e)| % 4 == 0 && |Record(e)| >= HEADER
  {
    hide Head, Pad;
    assert |Record(e)| - |Head(e)| == |e.data| + |Pad(|e.data|)|;
    SumOfFours(|Head(e)|, |e.data| + |Pad(|e.data|)|);
  }

  lemma PaddedTo(k: nat, n: nat, padded: nat)
    requires k % 4 == 0 && padded % 4 == 0 && n <= padded < n + 4 && k + n + 3 < LIMIT32
    ensures Align4(k + n) == k + padded
  {
  }

  lemma TrailerParses(image: seq<byte>, k: nat, upper: bool)
    requires k % 4 == 0 && k <= |image| && image[k..] == Record(Last(upper)) && |image| + 3 < LIMIT32
    ensures k + HEADER <= |image| && PhysStep(image, k) == Stop
    ensures image[k..k + 6] == MAGIC && Field(image, k, NAMESIZE_AT) <= NAME_MAX
  {
    hide Header, Pad, Record, Head, ParseHex, IsTrailer, CStr, Normal, Align4;
    assert image[k..] == Record(Last(upper)) + [];
    RecordLayout(image, k, Last(upper), []);
    FieldsOf(image, k, Last(upper));
    TrailerIsAnyPrefix(TRAILER);
    assert TRAILER <= TRAILER;
  }

  // ----- Reading an archive -----

  predicate AllEncodable(entries: seq<Entry>) { forall i :: 0 <= i < |entries| ==> Encodable(entries[i]) }

  /** What installing one entry does. */
  function InstallEntry(t: Tree, e: Entry): Made {
    if Normal(e.name).None? then Made(t, 0) else Install(t, Normal(e.name).value, e.mode, e.data)
  }

  /** Installs the entries in order, up to the first that fails. */
  function InstallAll(t: Tree, entries: seq<Entry>): Made
    decreases |entries|
  {
    if entries == [] then Made(t, 0)
    else
      var m := InstallEntry(t, entries[0]);
      if m.rc != 0 then m else InstallAll(m.t, entries[1..])
  }

  lemma NamesTurn(image: seq<byte>, k: nat)
    requires |image| + 3 < LIMIT32 && k + HEADER <= |image| && Field(image, k, NAMESIZE_AT) <= NAME_MAX
    requires PhysStep(image, k).Stop? || (PhysStep(image, k).Item? && NamesEnd(image, PhysStep(image, k).next))
    ensures NamesEnd(image, k)
  {
    hide PhysStep, Field;
  }

  lemma InstallTurn(t: Tree, entries: seq<Entry>, next: nat)
    requires entries != []
    ensures var e := entries[0];
      var m := InstallItem(t, Item(Normal(e.name), e.mode, e.data, next));
      InstallAll(t, entries) == (if m.rc != 0 then m else InstallAll(m.t, entries[1..]))
  {
    hide Normal, Install;
  }

  /** Loading a written archive installs exactly its entries in order, and every name in it ends properly. */
  lemma {:induction false} LoadsEncoding(t: Tree, image: seq<byte>, k: nat, entries: seq<Entry>, upper: bool)
    requires k % 4 == 0 && k <= |image| && image[k..] == Encode(entries, upper) && |image| + 3 < LIMIT32 && AllEncodable(entries)
    ensures LoadPhys(t, image, k) == Outcome(InstallAll(t, entries).t, InstallAll(t, entries).rc)
    ensures NamesEnd(image, k)
    decreases |entries|
  {
    hide PhysStep, Record, Last, Head, Header, Pad, Install, Normal, Field, Encodable, LoadPhys, NamesEnd, InstallItem, InstallAll;
    if entries == [] {
      TrailerParses(image, k, upper);
      PhysUnfold(t, image, k);
      NamesTurn(image, k);
      assert InstallAll(t, []) == Made(t, 0) by { NothingToInstall(t); }
    } else {
      var e, next := entries[0], k + |Record(entries[0])|;
      RecordParses(image, k, e, Encode(entries[1..], upper));
      RecordSize(e);
      RestOf(image, k, Record(e), Encode(entries[1..], upper));
      SumOfFours(k, |Record(e)|);
      PhysUnfold(t, image, k);
      InstallTurn(t, entries, next);
      LoadsEncoding(InstallItem(t, PhysStep(image, k)).t, image, next, entries[1..], upper);
      NamesTurn(image, k);
    }
  }

  lemma NothingToInstall(t: Tree)
    ensures InstallAll(t, []) == Made(t, 0)
  {
  }

  lemma RestOf(image: seq<byte>, k: nat, a: seq<byte>, b: seq<byte>)
    requires k <= |image| && image[k..] == a + b
    ensures k + |a| <= |image| && image[k + |a|..] == b
  {
    assert image[k..][|a|..] == image[k + |a|..];
  }

  // ----- An archive cut off behind its last data -----

  /** A record without the padding behind its data, and nothing after it. */
  function Unpadded(e: Entry): seq<byte> { Head(e) + e.data }

  /**
    An entry that goes in, with data that does not end on a multiple of four and no
    padding behind it: the parsers part at the end of such an image.
   */
  lemma UnpaddedParts(t: Tree, e: Entry, base: nat)
    requires Encodable(e) && |e.data| % 4 != 0 && InstallEntry(t, e).rc == 0
    requires base % 4 == 0 && base + |Unpadded(e)| + 3 < LIMIT32
    ensures var image := Unpadded(e);
      NamesEnd(image, 0) && !PaddingInside(t, image, 0)
      && LoadPhys(t, image, 0) == Outcome(InstallEntry(t, e).t, -1) && LoadPointer(t, image, base, base) == Lost
  {
    hide Header, Pad, Head, Normal, Align4, Field, PhysStep, PointerStep, Encodable, LoadPhys, LoadPointer, NamesEnd, InstallItem, Install;
    var image := Unpadded(e);
    UnpaddedReads(e);
    var s := PhysStep(image, 0);
    NothingBehind(t, image, s.next);
    NamesTurn(image, 0);
    SameInstall(t, e, s.next);
    PaddingPastTheEnd(t, image, base, 0);
  }

  lemma SameInstall(t: Tree, e: Entry, next: nat)
    ensures InstallItem(t, Item(Normal(e.name), e.mode, e.data, next)) == InstallEntry(t, e)
  {
    hide Normal, Install;
  }

  lemma NothingBehind(t: Tree, image: seq<byte>, k: nat)
    requires |image| + 3 < LIMIT32 && k > |image|
    ensures NamesEnd(image, k)
  {
  }

  lemma UnpaddedReads(e: Entry)
    requires Encodable(e) && |e.data| % 4 != 0 && |Unpadded(e)| + 3 < LIMIT32
    ensures var image := Unpadded(e);
      HEADER <= |image| && Field(image, 0, NAMESIZE_AT) <= NAME_MAX
      && PhysStep(image, 0).Item? && PhysStep(image, 0) == Item(Normal(e.name), e.mode, e.data, PhysStep(image, 0).next)
      && PhysStep(image, 0).next > |image|
  {
    hide Header, Pad, Head, Record, Normal, Align4, Field, PhysStep;
    var image, d := Unpadded(e), |Head(e)|;
    UnpaddedLayout(e);
    FieldsOf(image, 0, e);
    HeadSize(e);
    PaddedTo(0, HEADER + |e.name| + 1, d);
    ItemIs(image, 0, e.name, e.data, d);
    AlignPasses(d, |e.data|);
  }

  lemma UnpaddedLayout(e: Entry)
    ensures var image, n := Unpadded(e), |e.name| + 1;
      HEADER + n <= |Head(e)| && image[0..HEADER] == Header(e) && image[HEADER..HEADER + n] == e.name + [NUL]
      && image[|Head(e)|..|Head(e)| + |e.data|] == e.data
  {
    hide Header, Pad, Head;
    HeadIs(e);
    var head, n := Head(e), |e.name| + 1;
    assert head[..HEADER] == Header(e);
    assert head[HEADER..HEADER + n] == e.name + [NUL];
    assert Unpadded(e)[0..HEADER] == head[..HEADER];
    assert Unpadded(e)[HEADER..HEADER + n] == head[HEADER..HEADER + n];
  }

  lemma AlignPasses(d: nat, n: nat)
    requires d % 4 == 0 && n % 4 != 0 && d + n + 3 < LIMIT32
    ensures Align4(d + n) > d + n
  {
  }
}
