/**
 A reference encoder for the "New ASCII Format" of cpio(5), and the proof that
 parsing and reading an encoded archive gives back every file.
 */
module CpioArchive {
  import opened Wrappers
  import opened Cpio

  /** The header fields the kernel does not look at. */
  datatype Meta = Meta(
    ino: nat, uid: nat, gid: nat, nlink: nat, mtime: nat,
    devMajor: nat, devMinor: nat, rdevMajor: nat, rdevMinor: nat, check: nat)

  datatype File = File(name: seq<byte>, mode: nat, data: seq<byte>, meta: Meta)

  // ---- numbers ----

  /** Encoders differ in the case of the hexadecimal digits. */
  function Digit(d: nat, lower: bool): byte
    requires d < 16
  {
    if d < 10 then 0x30 + d else if lower then 0x61 + d - 10 else 0x41 + d - 10
  }

  function Hex(v: nat, n: nat, lower: bool): (s: seq<byte>)
    ensures |s| == n
    ensures n > 0 ==> s[0] != PLUS
  {
    if n == 0 then [] else Hex(v / 16, n - 1, lower) + [Digit(v % 16, lower)]
  }

  lemma {:induction false} DigitsOfPrefix(s: seq<byte>, t: seq<byte>, n: nat)
    requires n <= |s| && n <= |t| && s[..n] == t[..n]
    ensures ParseDigits(s, 0, n) == ParseDigits(t, 0, n)
    decreases n
  {
    if n > 0 {
      assert s[..n][n - 1] == t[..n][n - 1];
      assert s[..n - 1] == s[..n][..n - 1];
      assert t[..n - 1] == t[..n][..n - 1];
      DigitsOfPrefix(s, t, n - 1);
    }
  }

  lemma {:induction false} DigitsOfHex(v: nat, n: nat, lower: bool)
    requires v < Pow16(n)
    ensures ParseDigits(Hex(v, n, lower), 0, n) == Some(v)
    decreases n
  {
    if n > 0 {
      DigitsOfHex(v / 16, n - 1, lower);
      var s := Hex(v, n, lower);
      DigitsOfPrefix(s, Hex(v / 16, n - 1, lower), n - 1);
      assert DigitValue(Digit(v % 16, lower)) == Some(v % 16);
    }
  }

  function Hex8(v: nat, lower: bool): (s: seq<byte>)
    ensures |s| == 8
  {
    Hex(v, 8, lower)
  }

  lemma Hex8RoundTrip(v: nat, lower: bool)
    requires v < U32_LIMIT
    ensures ParseHex8(Hex8(v, lower)) == Some(v)
  {
    assert Pow16(8) == U32_LIMIT by {
      assert Pow16(4) == 0x1_0000;
    }
    DigitsOfHex(v, 8, lower);
  }

  // ---- files ----

  function Zeros(n: nat): (s: seq<byte>)
    ensures |s| == n
  {
    seq(n, _ => 0)
  }

  function Padding(n: nat): (s: seq<byte>)
    ensures (n + |s|) % 4 == 0 && |s| < 4
  {
    Zeros(Align4(n) - n)
  }

  /** The 54 bytes up to the file size: magic, inode, mode, owner, links and time. */
  function HeaderStart(f: File, lower: bool): (s: seq<byte>)
    ensures |s| == 54
  {
    MAGIC + Hex8(f.meta.ino, lower) + Hex8(f.mode, lower)
    + (Hex8(f.meta.uid, lower) + Hex8(f.meta.gid, lower) + Hex8(f.meta.nlink, lower) + Hex8(f.meta.mtime, lower))
  }

  function Devices(m: Meta, lower: bool): (s: seq<byte>)
    ensures |s| == 32
  {
    Hex8(m.devMajor, lower) + Hex8(m.devMinor, lower) + Hex8(m.rdevMajor, lower) + Hex8(m.rdevMinor, lower)
  }

  function HeaderBytes(f: File, lower: bool): (s: seq<byte>)
    ensures |s| == HEADER_SIZE
  {
    HeaderStart(f, lower) + Hex8(|f.data|, lower) + Devices(f.meta, lower)
    + Hex8(|f.name| + 1, lower) + Hex8(f.meta.check, lower)
  }

  function NamePart(f: File): seq<byte> {
    f.name + [0] + Padding(HEADER_SIZE + |f.name| + 1)
  }

  function EncodeFile(f: File, lower: bool): seq<byte> {
    HeaderBytes(f, lower) + NamePart(f) + (f.data + Padding(|f.data|))
  }

  function Encode(files: seq<File>, lower: bool): seq<byte> {
    if files == [] then [] else EncodeFile(files[0], lower) + Encode(files[1..], lower)
  }

  function Trailer(meta: Meta): File {
    File(TRAILER, 0, [], meta)
  }

  /** The files, the trailer, and whatever follows it. */
  function Archive(files: seq<File>, meta: Meta, tail: seq<byte>, lower: bool): seq<byte> {
    Encode(files, lower) + (EncodeFile(Trailer(meta), lower) + tail)
  }

  /** The limits of the format, and names the kernel accepts. */
  predicate Storable(f: File) {
    && f.mode < U32_LIMIT && |f.data| < U32_LIMIT && |f.name| + 1 < U32_LIMIT
    && ValidUtf8(f.name)
  }

  predicate StorableFiles(files: seq<File>) {
    forall i :: 0 <= i < |files| ==> Storable(files[i]) && !IsTrailer(files[i].name)
  }

  // ---- one header ----

  lemma HeaderFields(f: File, lower: bool)
    ensures var h := HeaderBytes(f, lower);
      && h[0..6] == MAGIC && h[14..22] == Hex8(f.mode, lower)
      && h[54..62] == Hex8(|f.data|, lower) && h[94..102] == Hex8(|f.name| + 1, lower)
  {
    var s, h := HeaderStart(f, lower), HeaderBytes(f, lower);
    assert s[0..6] == MAGIC && s[14..22] == Hex8(f.mode, lower);
    assert h[0..6] == s[0..6] && h[14..22] == s[14..22];
  }

  /** `whole` holds `part` at `offset`. */
  predicate Holds(whole: seq<byte>, offset: nat, part: seq<byte>) {
    offset + |part| <= |whole| && whole[offset..offset + |part|] == part
  }

  lemma HoldsSlice(whole: seq<byte>, offset: nat, part: seq<byte>, a: nat, b: nat)
    requires Holds(whole, offset, part) && a <= b <= |part|
    ensures offset + b <= |whole| && whole[offset + a..offset + b] == part[a..b]
  {
    var slice, want := whole[offset + a..offset + b], part[a..b];
    forall k | 0 <= k < b - a ensures slice[k] == want[k] {
      assert whole[offset..offset + |part|][a + k] == part[a + k];
    }
  }

  lemma HoldsParts(whole: seq<byte>, offset: nat, a: seq<byte>, b: seq<byte>)
    requires Holds(whole, offset, a + b)
    ensures Holds(whole, offset, a) && Holds(whole, offset + |a|, b)
  {
    HoldsSlice(whole, offset, a + b, 0, |a|);
    HoldsSlice(whole, offset, a + b, |a|, |a| + |b|);
    assert (a + b)[0..|a|] == a && (a + b)[|a|..|a| + |b|] == b;
  }

  function DataOffset(f: File, offset: nat): nat {
    offset + HEADER_SIZE + |NamePart(f)|
  }

  lemma AlignShift(a: nat, b: nat)
    requires a % 4 == 0
    ensures Align4(a + b) == a + Align4(b)
  {}

  lemma DataOffsetAligned(f: File, offset: nat)
    requires offset % 4 == 0
    ensures DataOffset(f, offset) == Align4(offset + HEADER_SIZE + |f.name| + 1)
    ensures DataOffset(f, offset) % 4 == 0
  {
    AlignShift(offset, HEADER_SIZE + |f.name| + 1);
    assert |NamePart(f)| == Align4(HEADER_SIZE + |f.name| + 1) - HEADER_SIZE;
  }

  lemma HoldsMagic(whole: seq<byte>, offset: nat, h: seq<byte>)
    requires Holds(whole, offset, h) && |h| >= 6 && h[0..6] == MAGIC
    ensures HasMagic(whole, offset)
  {
    forall i | 0 <= i < |MAGIC| ensures whole[offset + i] == MAGIC[i] {
      assert whole[offset..offset + |h|][i] == h[i] == h[0..6][i];
    }
  }

  lemma HeaderNumbers(whole: seq<byte>, offset: nat, f: File, lower: bool)
    requires Storable(f) && Holds(whole, offset, HeaderBytes(f, lower))
    ensures offset + HEADER_SIZE <= |whole| && HasMagic(whole, offset)
    ensures ParseHex8(whole[offset + 94..offset + 102]) == Some(|f.name| + 1)
    ensures ParseHex8(whole[offset + 54..offset + 62]) == Some(|f.data|)
    ensures ParseHex8(whole[offset + 14..offset + 22]) == Some(f.mode)
  {
    var h := HeaderBytes(f, lower);
    HeaderFields(f, lower);
    HoldsMagic(whole, offset, h);
    HoldsSlice(whole, offset, h, 94, 102);
    HoldsSlice(whole, offset, h, 54, 62);
    HoldsSlice(whole, offset, h, 14, 22);
    Hex8RoundTrip(|f.name| + 1, lower);
    Hex8RoundTrip(|f.data|, lower);
    Hex8RoundTrip(f.mode, lower);
  }

  lemma NameHeld(whole: seq<byte>, offset: nat, f: File)
    requires Holds(whole, offset, NamePart(f))
    ensures offset + |f.name| + 1 <= |whole| && whole[offset..offset + |f.name|] == f.name
  {
    HoldsSlice(whole, offset, NamePart(f), 0, |f.name|);
    assert NamePart(f)[0..|f.name|] == f.name;
  }

  lemma HeaderFrom(whole: seq<byte>, offset: nat, name: seq<byte>, mode: nat, size: nat)
    requires offset + HEADER_SIZE + |name| + 1 <= |whole| && HasMagic(whole, offset)
    requires ParseHex8(whole[offset + 94..offset + 102]) == Some(|name| + 1)
    requires ParseHex8(whole[offset + 54..offset + 62]) == Some(size)
    requires ParseHex8(whole[offset + 14..offset + 22]) == Some(mode)
    requires whole[offset + HEADER_SIZE..offset + HEADER_SIZE + |name|] == name && ValidUtf8(name)
    ensures HeaderAt(whole, offset)
         == if IsTrailer(name) then Stop else FileAt(name, mode, size, Align4(offset + HEADER_SIZE + |name| + 1))
  {}

  /** At an encoded header and name the parser sees that file. */
  lemma HeaderSeen(whole: seq<byte>, offset: nat, f: File, lower: bool)
    requires Storable(f) && offset % 4 == 0
    requires Holds(whole, offset, HeaderBytes(f, lower)) && Holds(whole, offset + HEADER_SIZE, NamePart(f))
    ensures HeaderAt(whole, offset)
         == if IsTrailer(f.name) then Stop else FileAt(f.name, f.mode, |f.data|, DataOffset(f, offset))
  {
    HeaderNumbers(whole, offset, f, lower);
    NameHeld(whole, offset + HEADER_SIZE, f);
    DataOffsetAligned(f, offset);
    HeaderFrom(whole, offset, f.name, f.mode, |f.data|);
  }

  lemma PartsHeld(whole: seq<byte>, offset: nat, f: File, lower: bool)
    requires Holds(whole, offset, EncodeFile(f, lower))
    ensures Holds(whole, offset, HeaderBytes(f, lower)) && Holds(whole, offset + HEADER_SIZE, NamePart(f))
    ensures Holds(whole, DataOffset(f, offset), f.data)
  {
    var h, n, d := HeaderBytes(f, lower), NamePart(f), f.data + Padding(|f.data|);
    HoldsParts(whole, offset, h + n, d);
    HoldsParts(whole, offset, h, n);
    HoldsParts(whole, offset + HEADER_SIZE + |n|, f.data, Padding(|f.data|));
  }

  /** How many bytes a file takes in the archive. */
  function EncodedSize(f: File): nat {
    HEADER_SIZE + |NamePart(f)| + Align4(|f.data|)
  }

  lemma EncodedSizeIs(f: File, lower: bool)
    ensures |EncodeFile(f, lower)| == EncodedSize(f)
  {}

  lemma NextFile(f: File, offset: nat)
    requires offset % 4 == 0
    ensures Align4(DataOffset(f, offset) + |f.data|) == offset + EncodedSize(f)
    ensures (offset + EncodedSize(f)) % 4 == 0
  {
    DataOffsetAligned(f, offset);
    AlignShift(DataOffset(f, offset), |f.data|);
  }

  /** At an encoded file the parser sees that file, and its data where the encoder put it. */
  lemma HeaderOfFile(whole: seq<byte>, offset: nat, f: File, lower: bool)
    requires Storable(f) && offset % 4 == 0 && Holds(whole, offset, EncodeFile(f, lower))
    ensures HeaderAt(whole, offset)
         == if IsTrailer(f.name) then Stop else FileAt(f.name, f.mode, |f.data|, DataOffset(f, offset))
    ensures Holds(whole, DataOffset(f, offset), f.data)
  {
    PartsHeld(whole, offset, f, lower);
    HeaderSeen(whole, offset, f, lower);
  }

  // ---- whole archives ----

  function EntryFor(f: File, offset: nat, inode: nat): Entry {
    Entry(f.name, inode, f.mode, |f.data|, DataOffset(f, offset))
  }

  /** The entries the parser should find, from position `offset` and inode number `inode` on. */
  function EntriesOf(files: seq<File>, offset: nat, inode: nat): (es: seq<Entry>)
    ensures |es| == |files|
    decreases |files|
  {
    if files == [] then []
    else [EntryFor(files[0], offset, inode)] + EntriesOf(files[1..], offset + EncodedSize(files[0]), inode + 1)
  }

  function HeaderFor(f: File, offset: nat): Header {
    FileAt(f.name, f.mode, |f.data|, DataOffset(f, offset))
  }

  /** The headers the parser should see: those of the files, then the end. */
  function HeadersOf(files: seq<File>, offset: nat): seq<Header>
    decreases |files|
  {
    if files == [] then [Stop]
    else [HeaderFor(files[0], offset)] + HeadersOf(files[1..], offset + EncodedSize(files[0]))
  }

  lemma TrailerStops(whole: seq<byte>, offset: nat, meta: Meta, lower: bool)
    requires offset % 4 == 0 && Holds(whole, offset, EncodeFile(Trailer(meta), lower))
    ensures HeaderAt(whole, offset) == Stop
  {
    TrailerIsUtf8(Trailer(meta).name);
    HeaderOfFile(whole, offset, Trailer(meta), lower);
  }

  lemma ScanStep(whole: seq<byte>, offset: nat, f: File)
    requires offset % 4 == 0 && HeaderAt(whole, offset) == HeaderFor(f, offset)
    ensures Scan(whole, offset) == [HeaderFor(f, offset)] + Scan(whole, offset + EncodedSize(f))
  {
    NextFile(f, offset);
  }

  lemma {:induction false} ScanEncoded(whole: seq<byte>, offset: nat, files: seq<File>, meta: Meta, lower: bool)
    requires StorableFiles(files) && offset % 4 == 0
    requires Holds(whole, offset, Encode(files, lower) + EncodeFile(Trailer(meta), lower))
    ensures Scan(whole, offset) == HeadersOf(files, offset)
    decreases |files|
  {
    var trailer := EncodeFile(Trailer(meta), lower);
    if files == [] {
      assert Encode(files, lower) + trailer == trailer;
      TrailerStops(whole, offset, meta, lower);
    } else {
      HoldsFirst(whole, offset, files, trailer, lower);
      FirstHeader(whole, offset, files, trailer, lower);
      NextFile(files[0], offset);
      ScanEncoded(whole, offset + EncodedSize(files[0]), files[1..], meta, lower);
      ScanStep(whole, offset, files[0]);
    }
  }

  lemma {:induction false} CollectHeaders(files: seq<File>, offset: nat, inode: nat)
    ensures Collect(HeadersOf(files, offset), inode) == Done(EntriesOf(files, offset, inode))
    decreases |files|
  {
    if files != [] {
      var rest := HeadersOf(files[1..], offset + EncodedSize(files[0]));
      CollectHeaders(files[1..], offset + EncodedSize(files[0]), inode + 1);
      assert HeadersOf(files, offset)[1..] == rest;
    }
  }

  lemma HoldsFirst(whole: seq<byte>, offset: nat, files: seq<File>, end: seq<byte>, lower: bool)
    requires files != [] && Holds(whole, offset, Encode(files, lower) + end)
    ensures Holds(whole, offset, EncodeFile(files[0], lower))
    ensures Holds(whole, offset + EncodedSize(files[0]), Encode(files[1..], lower) + end)
  {
    HoldsThree(whole, offset, EncodeFile(files[0], lower), Encode(files[1..], lower), end);
    EncodedSizeIs(files[0], lower);
  }

  lemma HoldsThree(whole: seq<byte>, offset: nat, a: seq<byte>, b: seq<byte>, c: seq<byte>)
    requires Holds(whole, offset, a + b + c)
    ensures Holds(whole, offset, a) && Holds(whole, offset + |a|, b + c)
  {
    assert a + b + c == a + (b + c);
    HoldsParts(whole, offset, a, b + c);
  }

  lemma FirstDescribed(whole: seq<byte>, offset: nat, inode: nat, files: seq<File>, end: seq<byte>, lower: bool)
    requires files != [] && Holds(whole, offset, Encode(files, lower) + end)
    ensures Describes(whole, EntryFor(files[0], offset, inode), files[0], inode)
  {
    HoldsFirst(whole, offset, files, end, lower);
    PartsHeld(whole, offset, files[0], lower);
  }

  lemma FirstHeader(whole: seq<byte>, offset: nat, files: seq<File>, end: seq<byte>, lower: bool)
    requires files != [] && StorableFiles(files) && offset % 4 == 0
    requires Holds(whole, offset, Encode(files, lower) + end)
    ensures HeaderAt(whole, offset) == HeaderFor(files[0], offset)
  {
    HoldsFirst(whole, offset, files, end, lower);
    HeaderOfFile(whole, offset, files[0], lower);
  }

  lemma {:induction false} AsciiIsUtf8(s: seq<byte>, i: nat)
    requires i <= |s| && forall k :: 0 <= k < |s| ==> s[k] < 0x80
    ensures Utf8From(s, i)
    decreases |s| - i
  {
    if i < |s| {
      AsciiIsUtf8(s, i + 1);
    }
  }

  lemma TrailerIsUtf8(s: seq<byte>)
    requires s == TRAILER
    ensures ValidUtf8(s)
  {
    TrailerIsAscii();
    AsciiIsUtf8(s, 0);
  }

  lemma TrailerIsAscii()
    ensures forall i :: 0 <= i < |TRAILER| ==> TRAILER[i] < 0x80
  {}

  /** Entry `i` describes file `i`, and its data range in the archive holds the file's bytes. */
  predicate Describes(whole: seq<byte>, e: Entry, f: File, inode: nat) {
    && e.path == f.name && e.mode == f.mode && e.inode == inode
    && e.size == |f.data| && Holds(whole, e.dataOffset, f.data)
  }

  lemma {:induction false} EntriesDescribe(
    whole: seq<byte>, offset: nat, inode: nat, files: seq<File>, end: seq<byte>, lower: bool, i: nat)
    requires i < |files| && Holds(whole, offset, Encode(files, lower) + end)
    ensures Describes(whole, EntriesOf(files, offset, inode)[i], files[i], inode + i)
    decreases |files|
  {
    if i == 0 {
      FirstDescribed(whole, offset, inode, files, end, lower);
    } else {
      HoldsFirst(whole, offset, files, end, lower);
      EntriesDescribe(whole, offset + EncodedSize(files[0]), inode + 1, files[1..], end, lower, i - 1);
    }
  }

  function FsOf(files: seq<File>, meta: Meta, tail: seq<byte>, lower: bool): InitramFs {
    InitramFs(Archive(files, meta, tail, lower), EntriesOf(files, 0, 2))
  }

  lemma ArchiveHolds(files: seq<File>, meta: Meta, tail: seq<byte>, lower: bool)
    ensures Holds(Archive(files, meta, tail, lower), 0, Encode(files, lower) + EncodeFile(Trailer(meta), lower))
  {
    var both := Encode(files, lower) + EncodeFile(Trailer(meta), lower);
    assert Archive(files, meta, tail, lower) == both + tail;
  }

  /**
   Round trip: parsing the archive of any list of files, whatever follows the
   trailer, yields one entry per file in order, numbered from 2, with its name,
   mode and size, and with its bytes at the recorded place.
   */
  lemma RoundTrip(files: seq<File>, meta: Meta, tail: seq<byte>, lower: bool)
    requires StorableFiles(files)
    ensures var whole := Archive(files, meta, tail, lower); var r := Parse(whole);
      && r == Done(FsOf(files, meta, tail, lower).entries)
      && |r.value| == |files|
      && forall i :: 0 <= i < |files| ==> Describes(whole, r.value[i], files[i], 2 + i)
  {
    var whole := Archive(files, meta, tail, lower);
    ArchiveHolds(files, meta, tail, lower);
    ScanEncoded(whole, 0, files, meta, lower);
    CollectHeaders(files, 0, 2);
    forall i | 0 <= i < |files| ensures Describes(whole, EntriesOf(files, 0, 2)[i], files[i], 2 + i) {
      EntriesDescribe(whole, 0, 2, files, EncodeFile(Trailer(meta), lower), lower, i);
    }
  }

  // ---- reading back ----

  /** What a file yields from `offset` on to a buffer of `room` bytes. */
  function Window(content: seq<byte>, offset: nat, room: nat): seq<byte> {
    if offset >= |content| then [] else content[offset..offset + Min(room, |content| - offset)]
  }

  /** A read through an entry that describes `f` returns the window of `f`, or the start overflows. */
  lemma ReadDescribed(data: seq<byte>, e: Entry, f: File, inode: nat, offset: nat, room: nat)
    requires Describes(data, e, f, inode) && |data| < U64_LIMIT
    ensures ReadEntry(data, e, offset, room)
         == if e.dataOffset + offset < U64_LIMIT then Bytes(Window(f.data, offset, room)) else ReadPanic
  {
    if offset < |f.data| {
      var n := Min(room, |f.data| - offset);
      HoldsSlice(data, e.dataOffset, f.data, offset, offset + n);
    }
  }

  lemma InodeDescribed(whole: seq<byte>, es: seq<Entry>, files: seq<File>, i: nat)
    requires |es| == |files| && forall j :: 0 <= j < |files| ==> Describes(whole, es[j], files[j], 2 + j)
    requires i < |files|
    ensures FindInode(es, 2 + i) == i
  {
    var j := FindInode(es, 2 + i);
    assert Describes(whole, es[i], files[i], 2 + i);
    assert Describes(whole, es[j], files[j], 2 + j);
  }

  /** Every read of inode 2 + i returns exactly that window of file `i`, or panics as the start overflows. */
  lemma ReadBack(files: seq<File>, meta: Meta, tail: seq<byte>, lower: bool, i: nat, offset: nat, room: nat)
    requires StorableFiles(files) && i < |files|
    requires |Archive(files, meta, tail, lower)| < U64_LIMIT
    ensures ReadAt(FsOf(files, meta, tail, lower), 2 + i, offset, room)
         == if EntriesOf(files, 0, 2)[i].dataOffset + offset < U64_LIMIT
            then Bytes(Window(files[i].data, offset, room)) else ReadPanic
  {
    RoundTrip(files, meta, tail, lower);
    var fs := FsOf(files, meta, tail, lower);
    InodeDescribed(fs.data, fs.entries, files, i);
    ReadDescribed(fs.data, fs.entries[i], files[i], 2 + i, offset, room);
  }

  function Slashes(k: nat): (s: seq<byte>)
    ensures |s| == k
  {
    if k == 0 then [] else [SLASH] + Slashes(k - 1)
  }

  lemma {:induction false} TrimmedName(k: nat, name: seq<byte>)
    requires name == [] || name[0] != SLASH
    ensures TrimSlashes(Slashes(k) + name) == name
    decreases k
  {
    if k == 0 {
      assert Slashes(0) + name == name;
    } else {
      assert (Slashes(k) + name)[1..] == Slashes(k - 1) + name;
      TrimmedName(k - 1, name);
    }
  }

  /** Names that a path can reach: nonempty, relative, no two alike. */
  predicate DistinctNames(files: seq<File>) {
    && (forall i :: 0 <= i < |files| ==> files[i].name != [] && files[i].name[0] != SLASH)
    && (forall i, j :: 0 <= i < j < |files| ==> files[i].name != files[j].name)
  }

  lemma PathIsNotRoot(k: nat, name: seq<byte>)
    requires name != [] && name[0] != SLASH
    ensures var path := Slashes(k) + name; path != [] && path != [SLASH]
  {
    assert (Slashes(k) + name)[k] == name[0];
  }

  /** `path` reaches `f`: it is the name of `f`, or becomes it without its leading slashes. */
  predicate Reaches(path: seq<byte>, f: File) {
    f.name == path || f.name == TrimSlashes(path)
  }

  lemma PathOfDescribed(whole: seq<byte>, es: seq<Entry>, files: seq<File>, path: seq<byte>)
    requires |es| == |files| && forall j :: 0 <= j < |files| ==> Describes(whole, es[j], files[j], 2 + j)
    ensures var i := FindPath(es, path);
      && (i < |files| ==> Reaches(path, files[i]))
      && (forall j :: 0 <= j < i ==> !Reaches(path, files[j]))
  {
    var i := FindPath(es, path);
    forall j | 0 <= j < |files| ensures es[j].path == files[j].name {
      assert Describes(whole, es[j], files[j], 2 + j);
    }
  }

  /** `r` is file `f`: its number, its size, the low half of its mode, and the type its mode bits say. */
  predicate IsInodeOf(r: Option<Inode>, f: File, num: nat) {
    && r.Some? && r.value.num == num && r.value.size == |f.data| && r.value.mode == f.mode % 0x1_0000
    && KindMatches(r.value.kind, f.mode)
  }

  /** `r` is the inode of the first file the path reaches, or nothing if it reaches none. */
  ghost predicate FindsFirst(r: Option<Inode>, files: seq<File>, path: seq<byte>) {
    if r.None? then forall j :: 0 <= j < |files| ==> !Reaches(path, files[j])
    else exists i :: 0 <= i < |files| && Reaches(path, files[i]) && IsInodeOf(r, files[i], 2 + i)
                     && forall j :: 0 <= j < i ==> !Reaches(path, files[j])
  }

  lemma LookupDescribed(fs: InitramFs, files: seq<File>, path: seq<byte>)
    requires path != [] && path != [SLASH] && |fs.entries| == |files|
    requires forall j :: 0 <= j < |files| ==> Describes(fs.data, fs.entries[j], files[j], 2 + j)
    ensures FindsFirst(Lookup(fs, path), files, path)
  {
    PathOfDescribed(fs.data, fs.entries, files, path);
    var i := FindPath(fs.entries, path);
    if i < |files| {
      assert Describes(fs.data, fs.entries[i], files[i], 2 + i);
      assert Reaches(path, files[i]);
      KindByMask(files[i].mode);
    }
  }

  /**
   Lookup in an encoded archive, for any path and any names, repeated or absolute
   ones included: the first file the path reaches, or nothing if it reaches none.
   */
  lemma LookupIs(files: seq<File>, meta: Meta, tail: seq<byte>, lower: bool, path: seq<byte>)
    requires StorableFiles(files)
    ensures var r := Lookup(FsOf(files, meta, tail, lower), path);
      if path == [] || path == [SLASH] then r == Some(Inode(1, Directory, 0, 0x1ED)) else FindsFirst(r, files, path)
  {
    if path != [] && path != [SLASH] {
      RoundTrip(files, meta, tail, lower);
      LookupDescribed(FsOf(files, meta, tail, lower), files, path);
    }
  }

  /** With distinct relative names every file is found, under any number of leading slashes. */
  lemma LookupFinds(files: seq<File>, meta: Meta, tail: seq<byte>, lower: bool, i: nat, k: nat)
    requires StorableFiles(files) && DistinctNames(files) && i < |files|
    ensures IsInodeOf(Lookup(FsOf(files, meta, tail, lower), Slashes(k) + files[i].name), files[i], 2 + i)
  {
    var path := Slashes(k) + files[i].name;
    PathIsNotRoot(k, files[i].name);
    TrimmedName(k, files[i].name);
    assert k == 0 ==> path == files[i].name;
    assert k > 0 ==> path[0] == SLASH;
    LookupIs(files, meta, tail, lower, path);
  }
}
