/**
 The initramfs: a cursor over a cpio "newc" archive, inode lookup by path, and
 reads by inode and offset (fs/initramfs.rs).

 A Rust panic (a slice out of range, a checked addition that overflows) is an
 outcome of its own here, so that no input is excluded.
 */
module Cpio {
  import opened Wrappers

  datatype Outcome<+T> = Done(value: T) | Rejected | Panicked

  // "070701"
  const MAGIC: seq<byte> := [0x30, 0x37, 0x30, 0x37, 0x30, 0x31]
  // "TRAILER!!!"
  const TRAILER: seq<byte> := [0x54, 0x52, 0x41, 0x49, 0x4C, 0x45, 0x52, 0x21, 0x21, 0x21]
  const HEADER_SIZE: nat := 110
  const PLUS: byte := 0x2B
  const SLASH: byte := 0x2F

  datatype Entry = Entry(path: seq<byte>, inode: nat, mode: nat, size: nat, dataOffset: nat)

  datatype InitramFs = InitramFs(data: seq<byte>, entries: seq<Entry>)

  // ---- fields ----

  function DigitValue(b: byte): Option<nat> {
    if 0x30 <= b <= 0x39 then Some(b - 0x30)
    else if 0x41 <= b <= 0x46 then Some(b - 0x41 + 10)
    else if 0x61 <= b <= 0x66 then Some(b - 0x61 + 10)
    else None
  }

  /** The number written by the digits from `first` up to `end`. */
  function ParseDigits(s: seq<byte>, first: nat, end: nat): Option<nat>
    requires first <= end <= |s|
  {
    if first == end then Some(0)
    else
      var high, low := ParseDigits(s, first, end - 1), DigitValue(s[end - 1]);
      if high.None? || low.None? then None else Some(16 * high.value + low.value)
  }

  /** `u32::from_str_radix(s, 16)` on eight bytes: a leading plus sign is accepted. */
  function ParseHex8(s: seq<byte>): Option<nat>
    requires |s| == 8
  {
    ParseDigits(s, if s[0] == PLUS then 1 else 0, 8)
  }

  function Pow16(n: nat): nat {
    if n == 0 then 1 else 16 * Pow16(n - 1)
  }

  lemma {:induction false} DigitsInRange(s: seq<byte>, first: nat, end: nat)
    requires first <= end <= |s|
    ensures ParseDigits(s, first, end).Some? <==> forall i :: first <= i < end ==> DigitValue(s[i]).Some?
    ensures ParseDigits(s, first, end).Some? ==> ParseDigits(s, first, end).value < Pow16(end - first)
    decreases end
  {
    if first < end {
      DigitsInRange(s, first, end - 1);
    }
  }

  /** A field is a number exactly if it has eight digits, or a plus sign and seven; it fits 32 bits. */
  lemma ParseHex8Iff(s: seq<byte>)
    requires |s| == 8
    ensures ParseHex8(s).Some? <==>
              (s[0] == PLUS || DigitValue(s[0]).Some?) && forall i :: 1 <= i < 8 ==> DigitValue(s[i]).Some?
    ensures ParseHex8(s).Some? ==> ParseHex8(s).value < U32_LIMIT
  {
    DigitsInRange(s, if s[0] == PLUS then 1 else 0, 8);
    assert Pow16(8) == 16 * Pow16(7) == U32_LIMIT by {
      assert Pow16(4) == 0x1_0000;
    }
  }

  lemma {:induction false} DigitsFrom(s: seq<byte>, t: seq<byte>, first: nat, end: nat)
    requires first <= end <= |s| == |t| && forall i :: first <= i < end ==> s[i] == t[i]
    ensures ParseDigits(s, first, end) == ParseDigits(t, first, end)
    decreases end
  {
    if first < end {
      DigitsFrom(s, t, first, end - 1);
    }
  }

  lemma {:induction false} LeadingZero(s: seq<byte>, end: nat)
    requires 1 <= end <= |s| && s[0] == 0x30
    ensures ParseDigits(s, 0, end) == ParseDigits(s, 1, end)
    decreases end
  {
    if end > 1 {
      LeadingZero(s, end - 1);
    } else {
      assert ParseDigits(s, 0, 0) == Some(0);
    }
  }

  /** A leading plus sign counts as a zero. */
  lemma PlusIsZero(s: seq<byte>)
    requires |s| == 8 && s[0] == PLUS
    ensures ParseHex8(s) == ParseHex8(s[0 := 0x30])
  {
    var t := s[0 := 0x30];
    DigitsFrom(s, t, 1, 8);
    LeadingZero(t, 8);
  }

  function Align4(x: nat): (r: nat)
    ensures r % 4 == 0 && x <= r < x + 4
  {
    (x + 3) / 4 * 4
  }

  predicate Continuation(b: byte) {
    0x80 <= b <= 0xBF
  }

  /** The length of the well-formed UTF-8 sequence at position `i`; 0 if there is none. */
  function SequenceLength(s: seq<byte>, i: nat): (n: nat)
    requires i < |s|
    ensures i + n <= |s|
  {
    var b, room := s[i], |s| - i;
    if b < 0x80 then 1
    else if room >= 2 && 0xC2 <= b <= 0xDF && Continuation(s[i + 1]) then 2
    else if room >= 3 && 0xE0 <= b <= 0xEF && Continuation(s[i + 1]) && Continuation(s[i + 2])
            && (b == 0xE0 ==> s[i + 1] >= 0xA0) && (b == 0xED ==> s[i + 1] <= 0x9F) then 3
    else if room >= 4 && 0xF0 <= b <= 0xF4
            && Continuation(s[i + 1]) && Continuation(s[i + 2]) && Continuation(s[i + 3])
            && (b == 0xF0 ==> s[i + 1] >= 0x90) && (b == 0xF4 ==> s[i + 1] <= 0x8F) then 4
    else 0
  }

  predicate Utf8From(s: seq<byte>, i: nat)
    requires i <= |s|
    decreases |s| - i
  {
    i == |s| || (SequenceLength(s, i) > 0 && Utf8From(s, i + SequenceLength(s, i)))
  }

  /** `core::str::from_utf8` accepts `s`. */
  predicate ValidUtf8(s: seq<byte>) {
    Utf8From(s, 0)
  }

  // ---- the parser ----

  /** What the parser makes of the bytes at one header position. */
  datatype Header =
    | Stop
    | BadField
    | NoName
    | FileAt(path: seq<byte>, mode: nat, size: nat, dataOffset: nat)

  /** The path is the name of the trailer entry, byte for byte. */
  predicate IsTrailer(path: seq<byte>) {
    |path| == |TRAILER| && forall i :: 0 <= i < |path| ==> path[i] == TRAILER[i]
  }

  /** The name behind the header at `offset`, given the three numbers of the header. */
  function NamedAt(data: seq<byte>, offset: nat, namesize: nat, filesize: nat, mode: nat): Header {
    var nameEnd := offset + HEADER_SIZE + namesize;
    if nameEnd > |data| then Stop
    else if namesize == 0 then NoName
    else
      var path := data[offset + HEADER_SIZE..nameEnd - 1];
      if !ValidUtf8(path) then BadField
      else if IsTrailer(path) then Stop
      else FileAt(path, mode, filesize, Align4(nameEnd))
  }

  predicate HasMagic(data: seq<byte>, offset: nat)
    requires offset + |MAGIC| <= |data|
  {
    forall i :: 0 <= i < |MAGIC| ==> data[offset + i] == MAGIC[i]
  }

  function HeaderAt(data: seq<byte>, offset: nat): Header {
    if offset + HEADER_SIZE > |data| || !HasMagic(data, offset) then Stop
    else
      var namesize := ParseHex8(data[offset + 94..offset + 102]);
      var filesize := ParseHex8(data[offset + 54..offset + 62]);
      var mode := ParseHex8(data[offset + 14..offset + 22]);
      if namesize.None? || filesize.None? || mode.None? then BadField
      else NamedAt(data, offset, namesize.value, filesize.value, mode.value)
  }

  lemma HeaderAtBounds(data: seq<byte>, offset: nat)
    requires HeaderAt(data, offset).FileAt?
    ensures offset + HEADER_SIZE < HeaderAt(data, offset).dataOffset
    ensures offset + HEADER_SIZE <= |data|
    ensures HeaderAt(data, offset).dataOffset % 4 == 0
    ensures ValidUtf8(HeaderAt(data, offset).path) && !IsTrailer(HeaderAt(data, offset).path)
  {}

  /** The number in the header field at `at`, if it is one. */
  function FieldAt(data: seq<byte>, at: nat): Option<nat>
    requires at + 8 <= |data|
  {
    ParseHex8(data[at..at + 8])
  }

  /** There is room for a header at `offset` and it starts with "070701". */
  predicate IsHeader(data: seq<byte>, offset: nat) {
    offset + 110 <= |data| && data[offset..offset + 6] == [0x30, 0x37, 0x30, 0x37, 0x30, 0x31]
  }

  lemma IsHeaderIff(data: seq<byte>, offset: nat)
    requires offset + HEADER_SIZE <= |data|
    ensures IsHeader(data, offset) <==> HasMagic(data, offset)
  {
    var front := data[offset..offset + 6];
    assert forall i :: 0 <= i < 6 ==> front[i] == data[offset + i];
    if HasMagic(data, offset) {
      assert forall i :: 0 <= i < 6 ==> front[i] == MAGIC[i];
      assert front == MAGIC;
    }
  }

  /**
   What a header position means, by its bytes: without room or magic it ends the parse;
   a field that is no number is bad; then a name past the end or that of the trailer
   ends it, an empty one panics, one that is not UTF-8 is bad, any other is a file.
   */
  lemma HeaderIs(data: seq<byte>, offset: nat)
    ensures var h := HeaderAt(data, offset);
      if !IsHeader(data, offset) then h.Stop?
      else
        var name, size, mode := FieldAt(data, offset + 94), FieldAt(data, offset + 54), FieldAt(data, offset + 14);
        if name.None? || size.None? || mode.None? then h.BadField?
        else
          var start, end := offset + 110, offset + 110 + name.value;
          && (end > |data| ==> h.Stop?)
          && (name.value == 0 ==> h.NoName?)
          && (0 < name.value && end <= |data| ==>
                && (h.BadField? <==> !ValidUtf8(data[start..end - 1]))
                && (h.Stop? <==> data[start..end - 1] == TRAILER && ValidUtf8(data[start..end - 1]))
                && (h.FileAt? ==> && h.path == data[start..end - 1] && h.mode == mode.value && h.size == size.value
                                  && h.dataOffset % 4 == 0 && end <= h.dataOffset < end + 4)
                && !h.NoName?)
  {
    if offset + HEADER_SIZE <= |data| {
      IsHeaderIff(data, offset);
    }
  }

  function NextOffset(h: Header): nat
    requires h.FileAt?
  {
    Align4(h.dataOffset + h.size)
  }

  function EntryOf(h: Header, inode: nat): Entry
    requires h.FileAt?
  {
    Entry(h.path, inode, h.mode, h.size, h.dataOffset)
  }

  function Prepend(es: seq<Entry>, rest: Outcome<seq<Entry>>): Outcome<seq<Entry>> {
    if rest.Done? then Done(es + rest.value) else rest
  }

  /** The headers a parse looks at from position `offset` on; all but the last are files. */
  function Scan(data: seq<byte>, offset: nat): (hs: seq<Header>)
    ensures hs != []
    decreases |data| + HEADER_SIZE - offset
  {
    var h := HeaderAt(data, offset);
    if h.FileAt? then
      HeaderAtBounds(data, offset);
      [h] + Scan(data, NextOffset(h))
    else [h]
  }

  /** The entries for a list of headers, numbered from `inode`. */
  function Collect(hs: seq<Header>, inode: nat): Outcome<seq<Entry>> {
    if hs == [] then Done([])
    else
      match hs[0]
      case Stop => Done([])
      case BadField => Rejected
      case NoName => Panicked
      case FileAt(_, _, _, _) => Prepend([EntryOf(hs[0], inode)], Collect(hs[1..], inode + 1))
  }

  function Parse(data: seq<byte>): Outcome<seq<Entry>> {
    Collect(Scan(data, 0), 2)
  }

  lemma PrependNone(rest: Outcome<seq<Entry>>)
    ensures Prepend([], rest) == rest
  {
    if rest.Done? {
      assert [] + rest.value == rest.value;
    }
  }

  lemma PrependTwice(a: seq<Entry>, b: seq<Entry>, rest: Outcome<seq<Entry>>)
    ensures Prepend(a, Prepend(b, rest)) == Prepend(a + b, rest)
  {
    if rest.Done? {
      assert a + (b + rest.value) == a + b + rest.value;
    }
  }

  /** One turn of the loop towards `goal`, with `entries` collected so far and header `h` next. */
  lemma CollectTurn(goal: Outcome<seq<Entry>>, entries: seq<Entry>, h: Header, rest: seq<Header>, inode: nat)
    requires goal == Prepend(entries, Collect([h] + rest, inode))
    ensures h.Stop? ==> goal == Done(entries)
    ensures h.BadField? ==> goal == Rejected
    ensures h.NoName? ==> goal == Panicked
    ensures h.FileAt? ==> goal == Prepend(entries + [EntryOf(h, inode)], Collect(rest, inode + 1))
  {
    assert ([h] + rest)[1..] == rest;
    if h.FileAt? {
      PrependTwice(entries, [EntryOf(h, inode)], Collect(rest, inode + 1));
    } else {
      assert entries + [] == entries;
    }
  }

  /** The part of the loop body of `InitramFs::new` that reads one header. */
  method ReadHeader(data: seq<byte>, offset: nat) returns (h: Header)
    requires offset + HEADER_SIZE <= |data|
    ensures h == HeaderAt(data, offset)
  {
    if !HasMagic(data, offset) {
      return Stop;
    }
    var namesize := ParseHex8(data[offset + 94..offset + 102]);
    if namesize.None? {
      return BadField;
    }
    var filesize := ParseHex8(data[offset + 54..offset + 62]);
    if filesize.None? {
      return BadField;
    }
    var mode := ParseHex8(data[offset + 14..offset + 22]);
    if mode.None? {
      return BadField;
    }
    assert HeaderAt(data, offset) == NamedAt(data, offset, namesize.value, filesize.value, mode.value);
    h := ReadName(data, offset, namesize.value, filesize.value, mode.value);
  }

  method ReadName(data: seq<byte>, offset: nat, namesize: nat, filesize: nat, mode: nat) returns (h: Header)
    ensures h == NamedAt(data, offset, namesize, filesize, mode)
  {
    var nameOffset := offset + HEADER_SIZE;
    var nameEnd := nameOffset + namesize;
    if nameEnd > |data| {
      return Stop;
    }
    if nameEnd - 1 < nameOffset {
      return NoName;
    }
    var path := data[nameOffset..nameEnd - 1];
    if !ValidUtf8(path) {
      return BadField;
    }
    var dataStart := Align4(nameEnd);
    if IsTrailer(path) {
      return Stop;
    }
    h := FileAt(path, mode, filesize, dataStart);
  }

  /** The next header of the scan, and what is left of it. */
  method NextHeader(data: seq<byte>, offset: nat, ghost todo: seq<Header>) returns (h: Header, ghost rest: seq<Header>)
    requires offset + HEADER_SIZE <= |data| && todo == Scan(data, offset)
    ensures todo == [h] + rest
    ensures h.FileAt? ==> offset < NextOffset(h) && rest == Scan(data, NextOffset(h))
  {
    h := ReadHeader(data, offset);
    if h.FileAt? {
      HeaderAtBounds(data, offset);
      rest := Scan(data, NextOffset(h));
    } else {
      rest := [];
    }
  }

  lemma ScanAtEnd(data: seq<byte>, offset: nat)
    requires offset + HEADER_SIZE > |data|
    ensures Scan(data, offset) == [Stop] + []
  {}

  /** `InitramFs::new`. */
  method New(data: seq<byte>) returns (r: Outcome<InitramFs>)
    ensures match Parse(data)
            case Done(entries) => r == Done(InitramFs(data, entries))
            case Rejected => r == Rejected
            case Panicked => r == Panicked
  {
    ghost var goal, todo := Parse(data), Scan(data, 0);
    var entries: seq<Entry> := [];
    var offset, inode := 0, 2;
    PrependNone(goal);
    while offset + HEADER_SIZE <= |data|
      invariant todo == Scan(data, offset)
      invariant goal == Prepend(entries, Collect(todo, inode))
      decreases |data| + HEADER_SIZE - offset
    {
      var h;
      ghost var rest;
      h, rest := NextHeader(data, offset, todo);
      CollectTurn(goal, entries, h, rest, inode);
      match h {
        case Stop =>
          return Done(InitramFs(data, entries));
        case BadField =>
          return Rejected;
        case NoName =>
          return Panicked;
        case FileAt(_, _, _, _) =>
          entries := entries + [EntryOf(h, inode)];
          inode := inode + 1;
          offset := NextOffset(h);
          todo := rest;
      }
    }
    ScanAtEnd(data, offset);
    CollectTurn(goal, entries, Stop, [], inode);
    r := Done(InitramFs(data, entries));
  }

  // ---- the structure of every parse ----

  /** Numbered from `inode`, data aligned, in order and apart, all but the last inside the archive. */
  predicate Structured(data: seq<byte>, offset: nat, inode: nat, es: seq<Entry>) {
    && (forall i :: 0 <= i < |es| ==>
          && es[i].inode == inode + i
          && es[i].dataOffset % 4 == 0 && offset + HEADER_SIZE < es[i].dataOffset
          && ValidUtf8(es[i].path) && !IsTrailer(es[i].path))
    && (forall i, j :: 0 <= i < j < |es| ==> es[i].dataOffset + es[i].size + HEADER_SIZE < es[j].dataOffset)
    && (forall i :: 0 <= i < |es| - 1 ==> es[i].dataOffset + es[i].size + HEADER_SIZE <= |data|)
  }

  lemma StructuredCons(data: seq<byte>, offset: nat, next: nat, inode: nat, e: Entry, rest: seq<Entry>)
    requires Structured(data, next, inode + 1, rest)
    requires e.inode == inode && e.dataOffset % 4 == 0 && offset + HEADER_SIZE < e.dataOffset
    requires ValidUtf8(e.path) && !IsTrailer(e.path) && e.dataOffset + e.size <= next
    requires rest != [] ==> next + HEADER_SIZE <= |data|
    ensures Structured(data, offset, inode, [e] + rest)
  {
    var es := [e] + rest;
    forall i, j | 0 <= i < j < |es| ensures es[i].dataOffset + es[i].size + HEADER_SIZE < es[j].dataOffset {
      assert es[j] == rest[j - 1];
      assert i > 0 ==> es[i] == rest[i - 1];
    }
  }

  /** The headers stand one behind the other from `offset` on. */
  predicate Chained(data: seq<byte>, offset: nat, hs: seq<Header>)
    decreases |hs|
  {
    hs == [] || (hs[0].FileAt? ==>
      && offset + HEADER_SIZE <= |data| && offset + HEADER_SIZE < hs[0].dataOffset && hs[0].dataOffset % 4 == 0
      && ValidUtf8(hs[0].path) && !IsTrailer(hs[0].path)
      && Chained(data, NextOffset(hs[0]), hs[1..]))
  }

  lemma {:induction false} ScanIsChained(data: seq<byte>, offset: nat)
    ensures Chained(data, offset, Scan(data, offset))
    decreases |data| + HEADER_SIZE - offset
  {
    var h := HeaderAt(data, offset);
    if h.FileAt? {
      HeaderAtBounds(data, offset);
      ScanIsChained(data, NextOffset(h));
      assert Scan(data, offset)[1..] == Scan(data, NextOffset(h));
    }
  }

  lemma {:induction false} ChainedIsStructured(data: seq<byte>, offset: nat, hs: seq<Header>, inode: nat)
    requires Chained(data, offset, hs) && Collect(hs, inode).Done?
    ensures Structured(data, offset, inode, Collect(hs, inode).value)
    decreases |hs|
  {
    if hs != [] && hs[0].FileAt? {
      var next := NextOffset(hs[0]);
      ChainedIsStructured(data, next, hs[1..], inode + 1);
      StructuredCons(data, offset, next, inode, EntryOf(hs[0], inode), Collect(hs[1..], inode + 1).value);
    }
  }

  /**
   For arbitrary bytes: whatever parses is numbered from 2, and its data ranges
   are aligned, in order and apart, all but the last inside the archive.
   */
  lemma ParseIsStructured(data: seq<byte>)
    requires Parse(data).Done?
    ensures Structured(data, 0, 2, Parse(data).value)
  {
    ScanIsChained(data, 0);
    ChainedIsStructured(data, 0, Scan(data, 0), 2);
  }

  lemma {:induction false} ScanEnds(data: seq<byte>, offset: nat)
    ensures var hs := Scan(data, offset);
      && !hs[|hs| - 1].FileAt?
      && forall k :: 0 <= k < |hs| - 1 ==> hs[k].FileAt?
    decreases |data| + HEADER_SIZE - offset
  {
    var h := HeaderAt(data, offset);
    if h.FileAt? {
      HeaderAtBounds(data, offset);
      ScanEnds(data, NextOffset(h));
    }
  }

  lemma {:induction false} CollectIs(hs: seq<Header>, inode: nat)
    requires hs != [] && !hs[|hs| - 1].FileAt? && forall k :: 0 <= k < |hs| - 1 ==> hs[k].FileAt?
    ensures var r, last := Collect(hs, inode), hs[|hs| - 1];
      && (r.Panicked? <==> last.NoName?) && (r.Rejected? <==> last.BadField?)
      && (r.Done? ==> |r.value| == |hs| - 1
                      && forall k :: 0 <= k < |hs| - 1 ==> r.value[k] == EntryOf(hs[k], inode + k))
    decreases |hs|
  {
    if |hs| > 1 {
      CollectIs(hs[1..], inode + 1);
    }
  }

  /**
   The outcome is decided at the last header looked at: a zero name size panics, a
   bad number or name rejects, anything else ends the archive with one entry per
   header before it, in order.
   */
  lemma OutcomeOfParse(data: seq<byte>)
    ensures var hs, r := Scan(data, 0), Parse(data); var last := hs[|hs| - 1];
      && (r.Panicked? <==> last.NoName?) && (r.Rejected? <==> last.BadField?) && (r.Done? <==> last.Stop?)
      && (forall k :: 0 <= k < |hs| - 1 ==> hs[k].FileAt?)
      && (r.Done? ==> |r.value| == |hs| - 1
                      && forall k :: 0 <= k < |hs| - 1 ==> r.value[k] == EntryOf(hs[k], 2 + k))
  {
    ScanEnds(data, 0);
    CollectIs(Scan(data, 0), 2);
  }

  // ---- lookup ----

  datatype Kind = RegularFile | Directory | Symlink

  datatype Inode = Inode(num: nat, kind: Kind, size: nat, mode: nat)

  function TrimSlashes(path: seq<byte>): seq<byte> {
    if path != [] && path[0] == SLASH then TrimSlashes(path[1..]) else path
  }

  /** The first entry named `path`, with or without its leading slashes. */
  function FindPath(es: seq<Entry>, path: seq<byte>): (i: nat)
    ensures i <= |es|
    ensures i < |es| ==> es[i].path == path || es[i].path == TrimSlashes(path)
    ensures forall j :: 0 <= j < i ==> es[j].path != path && es[j].path != TrimSlashes(path)
  {
    if es == [] || es[0].path == path || es[0].path == TrimSlashes(path) then 0
    else 1 + FindPath(es[1..], path)
  }

  /** The file type is in bits 12 to 15 of the mode. */
  function KindOf(mode: nat): Kind {
    var format := mode / 0x1000 % 0x10;
    if format == 0x4 then Directory else if format == 0xA then Symlink else RegularFile
  }

  /** The low half of a mode, as bits. */
  function LowBits(mode: nat): bv16 {
    (mode % 0x1_0000) as bv16
  }

  lemma NibbleBits(x: int)
    requires 0 <= x < 16
    ensures (x as bv4) as int == x
  {}

  lemma JoinNibbles(hi: bv4, lo: bv4)
    ensures (((hi as bv8) << 4) | lo as bv8) as int == 16 * (hi as int) + lo as int
  {}

  lemma JoinBytes(hi: bv8, lo: bv8)
    ensures (((hi as bv16) << 8) | lo as bv16) as int == 256 * (hi as int) + lo as int
  {}

  lemma ByteBits(x: int) returns (m: bv8)
    requires 0 <= x < 256
    ensures m as int == x
  {
    var hi, lo := x / 16, x % 16;
    NibbleBits(hi);
    NibbleBits(lo);
    JoinNibbles(hi as bv4, lo as bv4);
    m := (((hi as bv4) as bv8) << 4) | (lo as bv4) as bv8;
  }

  /** Every number of at most 16 bits is the value of some bits. */
  lemma HalfBits(x: int) returns (m: bv16)
    requires 0 <= x < 0x1_0000
    ensures m as int == x
  {
    var hi := ByteBits(x / 256);
    var lo := ByteBits(x % 256);
    JoinBytes(hi, lo);
    m := ((hi as bv16) << 8) | lo as bv16;
  }

  lemma BackToBits(m: bv16)
    ensures (m as int) as bv16 == m
  {}

  lemma LowBitsValue(x: int)
    requires 0 <= x < 0x1_0000
    ensures (x as bv16) as int == x
  {
    var m := HalfBits(x);
    BackToBits(m);
  }

  lemma MaskOfDirectory(m: bv16)
    ensures m & 0xF000 == 0x4000 <==> m as int / 0x1000 == 0x4
  {}

  lemma MaskOfSymlink(m: bv16)
    ensures m & 0xF000 == 0xA000 <==> m as int / 0x1000 == 0xA
  {}

  /** `kind` is what the file type bits of `mode` say, by the mask and values of the source. */
  predicate KindMatches(kind: Kind, mode: nat) {
    && (kind.Directory? <==> LowBits(mode) & 0xF000 == 0x4000)
    && (kind.Symlink? <==> LowBits(mode) & 0xF000 == 0xA000)
  }

  lemma KindByMask(mode: nat)
    ensures KindMatches(KindOf(mode), mode)
  {
    LowBitsValue(mode % 0x1_0000);
    MaskOfDirectory(LowBits(mode));
    MaskOfSymlink(LowBits(mode));
    LowDigit(mode);
  }

  lemma LowDigit(mode: nat)
    ensures mode % 0x1_0000 / 0x1000 == mode / 0x1000 % 0x10
  {}

  function Lookup(fs: InitramFs, path: seq<byte>): Option<Inode> {
    if path == [SLASH] || path == [] then Some(Inode(1, Directory, 0, 0x1ED))
    else
      var i := FindPath(fs.entries, path);
      if i == |fs.entries| then None
      else
        var e := fs.entries[i];
        Some(Inode(e.inode, KindOf(e.mode), e.size, e.mode % 0x1_0000))
  }

  // ---- reading ----

  datatype ReadResult = NotFound | ReadPanic | Bytes(bytes: seq<byte>)

  function FindInode(es: seq<Entry>, inode: nat): (i: nat)
    ensures i <= |es|
    ensures i < |es| ==> es[i].inode == inode
    ensures forall j :: 0 <= j < i ==> es[j].inode != inode
  {
    if es == [] || es[0].inode == inode then 0 else 1 + FindInode(es[1..], inode)
  }

  /** The bytes of one entry from `offset` on, for a buffer of `room` bytes. */
  function ReadEntry(data: seq<byte>, e: Entry, offset: nat, room: nat): ReadResult {
    var start, end := e.dataOffset + offset, e.dataOffset + e.size;
    if start >= U64_LIMIT || end >= U64_LIMIT then ReadPanic
    else if start >= end then Bytes([])
    else if end > |data| then ReadPanic
    else Bytes(data[start..start + Min(room, end - start)])
  }

  /** What `read` puts into the buffer. */
  function ReadAt(fs: InitramFs, inode: nat, offset: nat, room: nat): ReadResult {
    var i := FindInode(fs.entries, inode);
    if i == |fs.entries| then NotFound else ReadEntry(fs.data, fs.entries[i], offset, room)
  }

  /**
   A read of any parsed or other archive, by the entry with that inode number: the
   bytes at the offset, as many as there are and fit; or a panic, if a position does
   not fit 64 bits or there would be bytes but the entry runs past the archive.
   */
  lemma ReadIs(fs: InitramFs, inode: nat, offset: nat, room: nat)
    ensures var r := ReadAt(fs, inode, offset, room);
      && (r.NotFound? <==> forall k :: 0 <= k < |fs.entries| ==> fs.entries[k].inode != inode)
      && (forall k :: 0 <= k < |fs.entries| && fs.entries[k].inode == inode
                      && (forall j :: 0 <= j < k ==> fs.entries[j].inode != inode) ==>
            EntryRead(r, fs.data, fs.entries[k], offset, room))
  {}

  predicate EntryRead(r: ReadResult, data: seq<byte>, e: Entry, offset: nat, room: nat) {
    var at, end := e.dataOffset + offset, e.dataOffset + e.size;
    && !r.NotFound?
    && (r.ReadPanic? <==> at >= U64_LIMIT || end >= U64_LIMIT || (offset < e.size && end > |data|))
    && (r.Bytes? ==>
          && |r.bytes| == (if offset >= e.size then 0 else if room <= e.size - offset then room else e.size - offset)
          && at + |r.bytes| <= at + room
          && (forall k :: 0 <= k < |r.bytes| ==> at + k < |data| && r.bytes[k] == data[at + k]))
  }

  lemma FrontOfSlice(data: seq<byte>, start: nat, end: nat, n: nat)
    requires start + n <= end <= |data|
    ensures data[start..end][..n] == data[start..start + n]
  {}

  method FindEntry(es: seq<Entry>, inode: nat) returns (i: nat)
    ensures i == FindInode(es, inode)
  {
    i := 0;
    while i < |es| && es[i].inode != inode
      invariant i <= |es|
      invariant forall j :: 0 <= j < i ==> es[j].inode != inode
    {
      i := i + 1;
    }
  }

  datatype ReadStatus = ReadError | ReadPanics | ReadOk(n: nat)

  /** `read`: the bytes go to the front of `buf`, the rest of it is left alone. */
  method Read(fs: InitramFs, inode: nat, offset: nat, buf: array<byte>) returns (r: ReadStatus)
    modifies buf
    ensures match ReadAt(fs, inode, offset, buf.Length)
            case NotFound => r == ReadError && buf[..] == old(buf[..])
            case ReadPanic => r == ReadPanics && buf[..] == old(buf[..])
            case Bytes(bytes) =>
              r == ReadOk(|bytes|) && |bytes| <= buf.Length && buf[..] == bytes + old(buf[..])[|bytes|..]
  {
    var i := FindEntry(fs.entries, inode);
    if i == |fs.entries| {
      return ReadError;
    }
    var entry := fs.entries[i];
    var start := entry.dataOffset + offset;
    var end := entry.dataOffset + entry.size;
    if start >= U64_LIMIT || end >= U64_LIMIT {
      return ReadPanics;
    }
    if start >= end {
      return ReadOk(0);
    }
    if end > |fs.data| {
      return ReadPanics;
    }
    var available := fs.data[start..end];
    var n := Min(buf.Length, |available|);
    forall k | 0 <= k < n {
      buf[k] := available[k];
    }
    FrontOfSlice(fs.data, start, end, n);
    r := ReadOk(n);
  }
}
