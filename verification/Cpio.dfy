/**
  Unpacking an archive into the file system: the two loading loops, and the
  archive's way from its writer through a parser and the tree to a reader.
 */
module Cpio {
  import opened Paths
  import opened VfsSpec
  import opened CpioSpec
  import opened CpioImage
  import opened CpioTree
  import opened VfsCreate
  import VfsLinks
  import Vfs

  method ParseHexText(text: seq<byte>) returns (value: nat)
    ensures value == ParseHex(text)
  {
    value := 0;
    var i := 0;
    while i < |text|
      invariant i <= |text| && value == ParseHex(text[..i])
    {
      var c := text[i];
      var digit: nat := 0;
      if 48 <= c <= 57 {
        digit := c as nat - 48;
      } else if 97 <= c <= 102 {
        digit := c as nat - 97 + 10;
      } else if 65 <= c <= 70 {
        digit := c as nat - 65 + 10;
      }
      assert text[..i + 1][..i] == text[..i];
      value := value * 16 % LIMIT32 + digit;
      i := i + 1;
    }
    assert text[..i] == text;
  }

  lemma SkipDot(p: Str, j: nat)
    requires j <= |p|
    ensures SkipDots(p[j..]) == if j < |p| && p[j] == DOT then SkipDots(p[j + 1..]) else p[j..]
  {
    assert j < |p| ==> p[j..][1..] == p[j + 1..];
  }

  method NormalizePath(name: Str) returns (path: Option<Str>)
    requires NoNul(name)
    ensures path == Normal(name)
    ensures path.Some? ==> NoNul(path.value)
  {
    hide SkipDots, SkipSlash, Components, NoNul;
    NormalNoNul(name);
    var start := 0;
    assert name[0..] == name;
    while start < |name| && name[start] == DOT
      invariant start <= |name| && SkipDots(name[start..]) == SkipDots(name)
    {
      SkipDot(name, start);
      start := start + 1;
    }
    SkipDot(name, start);
    start := Vfs.SkipSlashes(name, start);
    if start >= |name| {
      return None;
    }
    return Some([SLASH] + name[start..]);
  }

  method InstallOne(fs: Vfs.FileSystem, path: Str, mode: nat, data: seq<byte>) returns (rc: int)
    requires fs.Valid() && NoNul(path)
    modifies fs
    ensures fs.Valid() && Made(fs.inodes, rc) == Install(old(fs.inodes), path, mode, data)
  {
    var kind := TypeBits(mode);
    if kind == S_IFDIR {
      rc := fs.MakeDir(path, mode);
    } else if kind == S_IFLNK {
      if |data| == 0 {
        return -1;
      }
      rc := fs.MakeSymlink(CStr(data), path);
    } else if kind == S_IFREG || kind == 0 {
      rc := fs.CreateFile(path, if kind == 0 then mode + S_IFREG else mode, data);
    } else {
      rc := 0;
    }
  }

  /** One turn of the loader that copies from physical memory. */
  method ReadPhys(image: seq<byte>, offset: nat) returns (s: Step)
    requires offset + HEADER <= |image| && |image| + 3 < LIMIT32
    ensures s == PhysStep(image, offset)
    ensures s.Item? && s.path.Some? ==> NoNul(s.path.value)
  {
    hide ParseHex, IsTrailer, CStr, Normal, Align4, Field;
    var hdr := image[offset..offset + HEADER];
    HeaderSlices(image, offset);
    if hdr[..6] != MAGIC {
      return Fail;
    }
    var namesize := ParseHexText(hdr[NAMESIZE_AT..NAMESIZE_AT + 8]);
    var filesize := ParseHexText(hdr[FILESIZE_AT..FILESIZE_AT + 8]);
    var mode := ParseHexText(hdr[MODE_AT..MODE_AT + 8]);
    if namesize == 0 || namesize > NAME_MAX {
      return Fail;
    }
    var at := offset + HEADER;
    if at + namesize > |image| {
      return Fail;
    }
    var name := image[at..at + namesize];
    if IsTrailer(name) {
      return Stop;
    }
    var from := Align4(at + namesize);
    if from + filesize > |image| {
      return Fail;
    }
    if NUL !in name {
      return Stray;
    }
    var path := NormalizePath(CStr(name));
    return Item(path, mode, image[from..from + filesize], Align4(from + filesize));
  }

  /** One turn of the loader over an archive mapped at `base`. */
  method ReadPointer(image: seq<byte>, base: nat, cursor: nat) returns (s: Step)
    requires base <= cursor && cursor + HEADER <= base + |image| && base + |image| + 3 < LIMIT32
    ensures s == PointerStep(image, base, cursor)
    ensures s.Item? && s.path.Some? ==> NoNul(s.path.value)
  {
    hide ParseHex, IsTrailer, CStr, Normal, Align4, Field;
    var end := base + |image|;
    var hdr := image[cursor - base..cursor - base + HEADER];
    HeaderSlices(image, cursor - base);
    if hdr[..6] != MAGIC {
      return Fail;
    }
    var namesize := ParseHexText(hdr[NAMESIZE_AT..NAMESIZE_AT + 8]);
    var filesize := ParseHexText(hdr[FILESIZE_AT..FILESIZE_AT + 8]);
    var mode := ParseHexText(hdr[MODE_AT..MODE_AT + 8]);
    var at := cursor + HEADER;
    if end - at < namesize {
      return Fail;
    }
    if namesize == 0 {
      return Fail;
    }
    if IsTrailer(image[at - base..at - base + namesize]) {
      return Stop;
    }
    var from := Align4(at + namesize);
    if from > end {
      return Fail;
    }
    if end - from < filesize {
      return Fail;
    }
    if NUL !in image[at - base..] {
      return Stray;
    }
    var path := NormalizePath(CStr(image[at - base..]));
    return Item(path, mode, image[from - base..from - base + filesize], Align4(from + filesize));
  }

  /**
    The loader that copies from physical memory. `lost` is set where the code would
    read outside the archive; the model stops there.
   */
  method PopulateVfsPhys(fs: Vfs.FileSystem, image: seq<byte>) returns (rc: int, lost: bool)
    requires fs.Valid() && |image| + 3 < LIMIT32
    modifies fs
    ensures fs.Valid() && (if lost then Lost else Outcome(fs.inodes, rc)) == LoadPhys(old(fs.inodes), image, 0)
  {
    hide LoadPhys, PhysStep, Install, TreeOk;
    rc, lost := -1, false;
    var offset := 0;
    while offset + HEADER <= |image|
      invariant fs.Valid() && LoadPhys(fs.inodes, image, offset) == LoadPhys(old(fs.inodes), image, 0)
      decreases |image| - offset
    {
      PhysUnfold(fs.inodes, image, offset);
      var s := ReadPhys(image, offset);
      if !s.Item? {
        return if s.Stop? then 0 else -1, s.Stray?;
      }
      if s.path.Some? {
        rc := InstallOne(fs, s.path.value, s.mode, s.data);
        if rc != 0 {
          return;
        }
      }
      offset := s.next;
    }
    PhysUnfold(fs.inodes, image, offset);
    return -1, false;
  }

  /**
    The loader over an archive mapped at `base`. `lost` is set where the code would
    read outside the archive, behind the end because the size left wraps around.
   */
  method PopulateVfs(fs: Vfs.FileSystem, image: seq<byte>, base: nat) returns (rc: int, lost: bool)
    requires fs.Valid() && base + |image| + 3 < LIMIT32
    modifies fs
    ensures fs.Valid() && (if lost then Lost else Outcome(fs.inodes, rc)) == LoadPointer(old(fs.inodes), image, base, base)
  {
    hide LoadPointer, PointerStep, Install, TreeOk;
    rc, lost := -1, false;
    var cursor, end := base, base + |image|;
    PointerUnfold(fs.inodes, image, base, cursor);
    while end - cursor >= HEADER
      invariant base <= cursor <= end && fs.Valid()
      invariant LoadPointer(fs.inodes, image, base, cursor) == LoadPointer(old(fs.inodes), image, base, base)
      decreases end - cursor
    {
      PointerUnfold(fs.inodes, image, base, cursor);
      var s := ReadPointer(image, base, cursor);
      if !s.Item? {
        return if s.Stop? then 0 else -1, s.Stray?;
      }
      if s.path.Some? {
        rc := InstallOne(fs, s.path.value, s.mode, s.data);
        if rc != 0 {
          return;
        }
      }
      cursor := s.next;
      PointerUnfold(fs.inodes, image, base, cursor);
      if cursor > end {
        return -1, true;
      }
    }
    PointerUnfold(fs.inodes, image, base, cursor);
    return -1, false;
  }

  lemma HeaderSlices(image: seq<byte>, k: nat)
    requires k + HEADER <= |image|
    ensures var hdr := image[k..k + HEADER];
      hdr[..6] == image[k..k + 6] && ParseHex(hdr[NAMESIZE_AT..NAMESIZE_AT + 8]) == Field(image, k, NAMESIZE_AT)
      && ParseHex(hdr[FILESIZE_AT..FILESIZE_AT + 8]) == Field(image, k, FILESIZE_AT)
      && ParseHex(hdr[MODE_AT..MODE_AT + 8]) == Field(image, k, MODE_AT)
  {
    SliceOfSlice(image, k, 0, 6);
    SliceOfSlice(image, k, MODE_AT, MODE_AT + 8);
    SliceOfSlice(image, k, FILESIZE_AT, FILESIZE_AT + 8);
    SliceOfSlice(image, k, NAMESIZE_AT, NAMESIZE_AT + 8);
  }

  // ----- From writer to reader -----

  predicate IsFile(e: Entry) { Leaf(e) && TypeBits(e.mode) != S_IFLNK }

  /** A lookup of the entry's path finds its inode, and reading a file yields its bytes. */
  predicate Readable(t: Tree, e: Entry) {
    Placed(e) ==>
      var path := Normal(e.name).value;
      && LookupNoFollow(t, path).Some? && LookupNoFollow(t, path).value < |t|
      && Matches(t[LookupNoFollow(t, path).value], e)
      && (IsFile(e) ==>
            VfsLinks.LookupFollow(t, path, 0).Some?
            && Vfs.ReadBytes(t, VfsLinks.LookupFollow(t, path, 0).value, 0, |e.data|) == Some(e.data))
  }

  lemma PresentIsReadable(t: Tree, e: Entry)
    requires Present(t, e) && GoodEntry(e)
    ensures Readable(t, e)
  {
    hide Walk, Normal, Components, GoodPath, VfsLinks.LookupFollow;
    if Placed(e) {
      var path := Normal(e.name).value;
      assert Truncated(path) == path;
      if IsFile(e) {
        VfsLinks.NotALinkFollows(t, path);
      }
    }
  }

  lemma NewIsAccounted(entries: seq<Entry>)
    ensures TreeOk(NewTree()) && Accounted(NewTree(), Ways(entries, 0), Leaves(entries, 0))
  {
    forall cs: Way
      ensures Known(NewTree(), Ways(entries, 0), Leaves(entries, 0), cs)
    {
      DeadEnd(NewTree(), 0, cs);
    }
  }

  /**
    Any well-formed list of entries, written as an archive with digits in upper or lower
    case, header by header, and loaded by either parser into a new tree, is accepted;
    every entry is then found under its normalised path, and every regular file reads
    back byte for byte.
   */
  lemma ArchiveRoundTrip(entries: seq<Entry>, upper: bool, base: nat)
    requires WellFormed(entries) && base % 4 == 0 && base + |Encode(entries, upper)| + 3 < LIMIT32
    ensures var o := LoadPhys(NewTree(), Encode(entries, upper), 0);
      o.Outcome? && o.rc == 0 && LoadPointer(NewTree(), Encode(entries, upper), base, base) == o
      && TreeOk(o.t) && forall i :: 0 <= i < |entries| ==> Readable(o.t, entries[i])
  {
    hide TreeOk, Accounted, LoadPhys, LoadPointer, NamesEnd, Encode, Present, Readable, InstallAll, Ways, Leaves;
    var image := Encode(entries, upper);
    assert image[0..] == image && entries[0..] == entries;
    GoodAreEncodable(entries);
    LoadsEncoding(NewTree(), image, 0, entries, upper);
    EncodeSize(entries, upper);
    ParsersAgree(NewTree(), image, base, 0);
    NewIsAccounted(entries);
    AllInstalled(NewTree(), entries, 0);
    forall i | 0 <= i < |entries|
      ensures Readable(InstallAll(NewTree(), entries).t, entries[i])
    {
      PresentIsReadable(InstallAll(NewTree(), entries).t, entries[i]);
    }
  }

  /** A file `a` of one byte, permissions rw-r--r--. */
  function SmallFile(): Entry { Entry([97], 0x81A4, [1], Attributes(1, 0, 0, 1, 0, 0, 0, 0, 0, 0, true)) }

  /** An image of 113 bytes on which the parsers part: one small file, cut off behind its byte. */
  lemma SmallFileParts()
    ensures var image := Unpadded(SmallFile());
      |image| == 113 && NamesEnd(image, 0) && LoadPointer(NewTree(), image, 0, 0) == Lost
      && LoadPhys(NewTree(), image, 0) == Outcome([Dir(DIR_MODE, [Dentry([97], 1)]), File(0x81A4, [1])], -1)
  {
    hide LoadPhys, LoadPointer, Head, NamesEnd, PaddingInside, InstallEntry;
    HeadIs(SmallFile());
    SmallFileGoesIn();
    UnpaddedParts(NewTree(), SmallFile(), 0);
  }

  lemma SmallFileGoesIn()
    ensures Encodable(SmallFile())
    ensures InstallEntry(NewTree(), SmallFile()) == Made([Dir(DIR_MODE, [Dentry([97], 1)]), File(0x81A4, [1])], 0)
  {
    hide SkipSlash, First, Rest, Components, WalkParent, Enter;
    VfsLinks.NameSkips([97]);
    assert SkipDots([97]) == [97];
    assert Normal([97]) == Some([SLASH] + [97]);
    assert TypeBits(0x81A4) == S_IFREG;
    SmallEnter();
  }

  lemma SmallEnter()
    ensures Enter(NewTree(), [SLASH] + [97], File(0x81A4, [1]), -1)
         == Made([Dir(DIR_MODE, [Dentry([97], 1)]), File(0x81A4, [1])], 0)
  {
    hide Components, WalkParent;
    VfsLinks.SelfPath([97]);
    SmallParent();
    assert LookupParent(NewTree(), [SLASH] + [97]) == Parent(NewTree(), Some(0), [97]);
    assert NewTree()[0].children == [];
    FirstChild([97], File(0x81A4, [1]));
  }

  lemma FirstChild(name: Str, node: Inode)
    ensures AddChild(NewTree(), 0, name, node) == [Dir(DIR_MODE, [Dentry(name, 1)]), node]
  {
    var cs := [Dentry(name, 1)];
    assert cs + [] == cs;
    assert AddChild(NewTree(), 0, name, node)[0] == Dir(DIR_MODE, cs);
  }

  lemma SmallParent()
    ensures WalkParent(NewTree(), 0, [[97]]) == Parent(NewTree(), Some(0), [97])
  {
  }

  lemma GoodAreEncodable(entries: seq<Entry>)
    requires WellFormed(entries)
    ensures AllEncodable(entries)
  {
  }
}
