/** Clipped rectangle fill into a linear framebuffer (drivers/framebuffer.rs). */
module Framebuffer {
  import opened Wrappers

  datatype PixelFormat = Rgb | Bgr | U8 | Unknown

  datatype Info = Info(width: nat, height: nat, stride: nat, bytesPerPixel: nat, format: PixelFormat)
  {
    /** A pixel has room for its channels. */
    predicate HasRoom() {
      bytesPerPixel > 0 && (format == Rgb || format == Bgr ==> bytesPerPixel >= 3)
    }
  }

  datatype Color = Color(r: byte, g: byte, b: byte)

  /** The value channel byte `c` of a pixel takes, or None for a byte that is left alone. */
  function Channel(format: PixelFormat, color: Color, c: nat): Option<byte> {
    match format
    case Rgb => if c == 0 then Some(color.r) else if c == 1 then Some(color.g) else if c == 2 then Some(color.b) else None
    case Bgr => if c == 0 then Some(color.b) else if c == 1 then Some(color.g) else if c == 2 then Some(color.r) else None
    case U8 => if c == 0 then Some((color.r + color.g + color.b) / 3) else None
    case Unknown => None
  }

  datatype Rect = Rect(x: nat, y: nat, w: nat, h: nat)

  predicate Inside(info: Info, rect: Rect, px: nat, py: nat) {
    && rect.x <= px < rect.x + rect.w && px < info.width
    && rect.y <= py < rect.y + rect.h && py < info.height
  }

  /** Where the clipped columns and rows of the rectangle end. */
  function ColumnEnd(info: Info, rect: Rect): nat {
    Min(rect.x + rect.w, info.width)
  }

  function RowEnd(info: Info, rect: Rect): nat {
    Min(rect.y + rect.h, info.height)
  }

  /** The first byte of pixel (px, py). */
  function Base(info: Info, px: nat, py: nat): nat {
    (py * info.stride + px) * info.bytesPerPixel
  }

  /** The pixel lies wholly in a buffer of `length` bytes. */
  predicate Fits(info: Info, length: nat, px: nat, py: nat) {
    Base(info, px, py) + info.bytesPerPixel <= length
  }

  // ---- bytes and pixels ----

  /** Column, row and channel that byte `k` of the buffer belongs to. */
  function ColumnOf(info: Info, k: nat): nat
    requires info.stride > 0 && info.bytesPerPixel > 0
  {
    k / info.bytesPerPixel % info.stride
  }

  function RowOf(info: Info, k: nat): nat
    requires info.stride > 0 && info.bytesPerPixel > 0
  {
    k / info.bytesPerPixel / info.stride
  }

  function ChannelOf(info: Info, k: nat): nat
    requires info.bytesPerPixel > 0
  {
    k % info.bytesPerPixel
  }

  lemma DivisionIsUnique(a: nat, b: nat, q: nat, r: nat)
    requires b > 0 && a == q * b + r && r < b
    ensures a / b == q && a % b == r
  {
    var d := q - a / b;
    assert d * b == a % b - r;
    SmallMultiple(d, b);
  }

  lemma SmallMultiple(d: int, b: int)
    requires -b < d * b < b
    ensures d == 0
  {}

  /** Byte `k` belongs to channel `c` of pixel (px, py) exactly when it stands there. */
  lemma ByteOfPixel(info: Info, k: nat, px: nat, py: nat)
    requires info.bytesPerPixel > 0 && px < info.stride
    ensures ColumnOf(info, k) == px && RowOf(info, k) == py
       <==> Base(info, px, py) <= k < Base(info, px, py) + info.bytesPerPixel
    ensures ColumnOf(info, k) == px && RowOf(info, k) == py ==> ChannelOf(info, k) == k - Base(info, px, py)
  {
    var p, bpp := k / info.bytesPerPixel, info.bytesPerPixel;
    assert k == p * bpp + k % bpp;
    assert p == RowOf(info, k) * info.stride + ColumnOf(info, k);
    if Base(info, px, py) <= k < Base(info, px, py) + bpp {
      DivisionIsUnique(k, bpp, py * info.stride + px, k - Base(info, px, py));
      DivisionIsUnique(p, info.stride, py, px);
    }
  }

  // ---- put_pixel and fill_rect on values ----

  /** How many bytes of a pixel the format writes. */
  function Channels(format: PixelFormat): nat {
    match format
    case Rgb => 3
    case Bgr => 3
    case U8 => 1
    case Unknown => 0
  }

  /** The pixel is in the buffer by its size, but its channels are not. */
  predicate PutPanics(info: Info, length: nat, px: nat, py: nat) {
    Fits(info, length, px, py) && Base(info, px, py) + Channels(info.format) > length
  }

  /** Byte `k` after the pixel is put. */
  function PutAt(info: Info, color: Color, buf: seq<byte>, px: nat, py: nat, k: nat): byte
    requires k < |buf|
  {
    var base := Base(info, px, py);
    if Fits(info, |buf|, px, py) && base <= k && Channel(info.format, color, k - base).Some?
    then Channel(info.format, color, k - base).value else buf[k]
  }

  function Put(info: Info, color: Color, buf: seq<byte>, px: nat, py: nat): (r: seq<byte>)
    ensures |r| == |buf|
    ensures forall k :: 0 <= k < |r| ==> r[k] == PutAt(info, color, buf, px, py, k)
  {
    seq(|buf|, k requires 0 <= k < |buf| => PutAt(info, color, buf, px, py, k))
  }

  /** The pixels of one row from `col` up to `end`, up to the first that panics. */
  function PutRow(info: Info, color: Color, buf: seq<byte>, row: nat, col: nat, end: nat): (r: (seq<byte>, bool))
    ensures |r.0| == |buf|
    decreases end - col
  {
    if col >= end then (buf, true)
    else
      var next := Put(info, color, buf, col, row);
      if PutPanics(info, |buf|, col, row) then (next, false) else PutRow(info, color, next, row, col + 1, end)
  }

  function PutRows(info: Info, color: Color, buf: seq<byte>, rect: Rect, row: nat, end: nat): (r: (seq<byte>, bool))
    ensures |r.0| == |buf|
    decreases end - row
  {
    if row >= end then (buf, true)
    else
      var (next, ok) := PutRow(info, color, buf, row, rect.x, ColumnEnd(info, rect));
      if ok then PutRows(info, color, next, rect, row + 1, end) else (next, false)
  }

  /** The buffer after a fill, and whether it ends without a panic. */
  function Fill(info: Info, color: Color, buf: seq<byte>, rect: Rect): (r: (seq<byte>, bool))
    ensures |r.0| == |buf|
  {
    PutRows(info, color, buf, rect, rect.y, RowEnd(info, rect))
  }

  // ---- when a fill panics ----

  lemma {:induction false} RowPanicsIff(info: Info, color: Color, buf: seq<byte>, row: nat, col: nat, end: nat)
    ensures PutRow(info, color, buf, row, col, end).1
       <==> forall px :: col <= px < end ==> !PutPanics(info, |buf|, px, row)
    decreases end - col
  {
    if col < end {
      RowPanicsIff(info, color, Put(info, color, buf, col, row), row, col + 1, end);
    }
  }

  lemma {:induction false} RowsPanicIff(info: Info, color: Color, buf: seq<byte>, rect: Rect, row: nat, end: nat)
    requires rect.y <= row && end <= RowEnd(info, rect)
    ensures PutRows(info, color, buf, rect, row, end).1
       <==> forall px, py :: row <= py < end && Inside(info, rect, px, py) ==> !PutPanics(info, |buf|, px, py)
    decreases end - row
  {
    if row < end {
      var colEnd := ColumnEnd(info, rect);
      RowPanicsIff(info, color, buf, row, rect.x, colEnd);
      assert forall px :: rect.x <= px < colEnd <==> Inside(info, rect, px, row);
      RowsPanicIff(info, color, PutRow(info, color, buf, row, rect.x, colEnd).0, rect, row + 1, end);
    }
  }

  /** A fill panics exactly when one of its pixels does. */
  lemma FillPanicsIff(info: Info, color: Color, buf: seq<byte>, rect: Rect)
    ensures !Fill(info, color, buf, rect).1
       <==> exists px, py :: Inside(info, rect, px, py) && PutPanics(info, |buf|, px, py)
  {
    RowsPanicIff(info, color, buf, rect, rect.y, RowEnd(info, rect));
  }

  // ---- what a fill paints ----

  /** Byte `k` is one of those of the pixel, which lies wholly in the buffer. */
  predicate Covers(info: Info, length: nat, px: nat, py: nat, k: nat) {
    Fits(info, length, px, py) && Base(info, px, py) <= k < Base(info, px, py) + info.bytesPerPixel
  }

  /** The value of byte `k` if its pixel is painted; `was` if not, or if the format leaves the byte alone. */
  function Painted(info: Info, color: Color, was: byte, k: nat, paint: bool): byte
    requires info.bytesPerPixel > 0
  {
    var v := Channel(info.format, color, ChannelOf(info, k));
    if paint && v.Some? then v.value else was
  }

  lemma CoveredChannel(info: Info, px: nat, py: nat, k: nat)
    requires info.bytesPerPixel > 0 && Base(info, px, py) <= k < Base(info, px, py) + info.bytesPerPixel
    ensures ChannelOf(info, k) == k - Base(info, px, py)
  {
    DivisionIsUnique(k, info.bytesPerPixel, py * info.stride + px, k - Base(info, px, py));
  }

  lemma PutPaints(info: Info, color: Color, buf: seq<byte>, px: nat, py: nat, k: nat)
    requires info.HasRoom() && k < |buf|
    ensures PutAt(info, color, buf, px, py, k) == Painted(info, color, buf[k], k, Covers(info, |buf|, px, py, k))
  {
    if Covers(info, |buf|, px, py, k) {
      CoveredChannel(info, px, py, k);
    }
  }

  /** Some pixel of the row from `col` up to `end` covers byte `k`. */
  predicate RowCovers(info: Info, length: nat, row: nat, col: nat, end: nat, k: nat) {
    exists px :: col <= px < end && Covers(info, length, px, row, k)
  }

  lemma {:induction false} RowPaints(info: Info, color: Color, buf: seq<byte>, row: nat, col: nat, end: nat, k: nat)
    requires info.HasRoom() && k < |buf|
    ensures PutRow(info, color, buf, row, col, end).1
    ensures PutRow(info, color, buf, row, col, end).0[k]
         == Painted(info, color, buf[k], k, RowCovers(info, |buf|, row, col, end, k))
    decreases end - col
  {
    if col < end {
      PutPaints(info, color, buf, col, row, k);
      RowPaints(info, color, Put(info, color, buf, col, row), row, col + 1, end, k);
      assert RowCovers(info, |buf|, row, col, end, k)
        <==> Covers(info, |buf|, col, row, k) || RowCovers(info, |buf|, row, col + 1, end, k);
    }
  }

  /** Byte `k` belongs to a pixel in the rectangle, on the screen and wholly in the buffer, from row `row` up to `end`. */
  predicate RowsCover(info: Info, length: nat, rect: Rect, row: nat, end: nat, k: nat) {
    exists py :: row <= py < end && RowCovers(info, length, py, rect.x, ColumnEnd(info, rect), k)
  }

  lemma {:induction false} RowsPaint(info: Info, color: Color, buf: seq<byte>, rect: Rect, row: nat, end: nat, k: nat)
    requires info.HasRoom() && k < |buf|
    ensures PutRows(info, color, buf, rect, row, end).1
    ensures PutRows(info, color, buf, rect, row, end).0[k]
         == Painted(info, color, buf[k], k, RowsCover(info, |buf|, rect, row, end, k))
    decreases end - row
  {
    if row < end {
      var colEnd := ColumnEnd(info, rect);
      RowPaints(info, color, buf, row, rect.x, colEnd, k);
      RowsPaint(info, color, PutRow(info, color, buf, row, rect.x, colEnd).0, rect, row + 1, end, k);
      assert RowsCover(info, |buf|, rect, row, end, k)
        <==> RowCovers(info, |buf|, row, rect.x, colEnd, k) || RowsCover(info, |buf|, rect, row + 1, end, k);
    }
  }

  ghost predicate InTarget(info: Info, rect: Rect, length: nat, k: nat) {
    exists px, py :: Inside(info, rect, px, py) && Covers(info, length, px, py, k)
  }

  lemma TargetIsRows(info: Info, rect: Rect, length: nat, k: nat)
    ensures InTarget(info, rect, length, k)
       <==> RowsCover(info, length, rect, rect.y, RowEnd(info, rect), k)
  {
    var rowEnd, colEnd := RowEnd(info, rect), ColumnEnd(info, rect);
    if px, py :| Inside(info, rect, px, py) && Covers(info, length, px, py, k) {
      assert RowCovers(info, length, py, rect.x, colEnd, k);
    }
    if py :| rect.y <= py < rowEnd && RowCovers(info, length, py, rect.x, colEnd, k) {
      var px :| rect.x <= px < colEnd && Covers(info, length, px, py, k);
      assert Inside(info, rect, px, py);
    }
  }

  /**
   The fill is exact, for any stride: it does not panic, every byte of a pixel in the
   rectangle, on the screen and in the buffer gets its channel value, and every
   other byte is unchanged.
   */
  lemma FillIsExact(info: Info, color: Color, buf: seq<byte>, rect: Rect, k: nat)
    requires info.HasRoom() && k < |buf|
    ensures Fill(info, color, buf, rect).1
    ensures Fill(info, color, buf, rect).0[k] == Painted(info, color, buf[k], k, InTarget(info, rect, |buf|, k))
  {
    RowsPaint(info, color, buf, rect, rect.y, RowEnd(info, rect), k);
    TargetIsRows(info, rect, |buf|, k);
  }

  /** The bytes of a filled pixel: red, green, blue or the reverse, or the mean; the other bytes are left alone. */
  lemma FilledPixel(info: Info, color: Color, buf: seq<byte>, rect: Rect, px: nat, py: nat, c: nat)
    requires info.HasRoom() && Inside(info, rect, px, py) && Fits(info, |buf|, px, py) && c < info.bytesPerPixel
    ensures var base := Base(info, px, py); var v := Fill(info, color, buf, rect).0[base + c];
      match info.format
      case Rgb => v == if c < 3 then [color.r, color.g, color.b][c] else buf[base + c]
      case Bgr => v == if c < 3 then [color.b, color.g, color.r][c] else buf[base + c]
      case U8 => if c == 0 then 3 * v <= color.r + color.g + color.b < 3 * v + 3 else v == buf[base + c]
      case Unknown => v == buf[base + c]
  {
    var k := Base(info, px, py) + c;
    assert Covers(info, |buf|, px, py, k);
    FillIsExact(info, color, buf, rect, k);
    CoveredChannel(info, px, py, k);
  }

  /** If rows do not overlap, the painted bytes are those whose own column and row are in the rectangle. */
  lemma TargetIsOwnPixel(info: Info, rect: Rect, length: nat, k: nat)
    requires info.bytesPerPixel > 0 && 0 < info.width <= info.stride
    ensures InTarget(info, rect, length, k)
       <==> Inside(info, rect, ColumnOf(info, k), RowOf(info, k)) && Fits(info, length, ColumnOf(info, k), RowOf(info, k))
  {
    if px, py :| Inside(info, rect, px, py) && Covers(info, length, px, py, k) {
      ByteOfPixel(info, k, px, py);
    }
    if Inside(info, rect, ColumnOf(info, k), RowOf(info, k)) {
      ByteOfPixel(info, k, ColumnOf(info, k), RowOf(info, k));
    }
  }

  // ---- the driver ----

  class Driver {
    const buffer: array<byte>
    const info: Info

    constructor (buffer: array<byte>, info: Info)
      ensures this.buffer == buffer && this.info == info
    {
      this.buffer := buffer;
      this.info := info;
    }

    /** An indexed write; false for a panic. */
    method Set(k: nat, v: byte) returns (ok: bool)
      modifies buffer
      ensures ok <==> k < buffer.Length
      ensures forall j :: 0 <= j < buffer.Length ==> buffer[j] == if j == k then v else old(buffer[j])
    {
      ok := k < buffer.Length;
      if ok {
        buffer[k] := v;
      }
    }

    method PutThree(base: nat, a: byte, b: byte, c: byte) returns (ok: bool)
      modifies buffer
      ensures ok <==> base + 2 < buffer.Length
      ensures forall j :: 0 <= j < buffer.Length ==>
        buffer[j] == if j == base then a else if j == base + 1 then b else if j == base + 2 then c else old(buffer[j])
    {
      ok := Set(base, a);
      if ok {
        ok := Set(base + 1, b);
      }
      if ok {
        ok := Set(base + 2, c);
      }
    }

    /** `put_pixel`; false for a panic. */
    method PutPixel(x: nat, y: nat, color: Color) returns (ok: bool)
      modifies buffer
      ensures buffer[..] == Put(info, color, old(buffer[..]), x, y)
      ensures ok <==> !PutPanics(info, buffer.Length, x, y)
    {
      var offset := y * info.stride + x;
      var bpp := info.bytesPerPixel;
      var base := offset * bpp;
      if base + bpp > buffer.Length {
        assert buffer[..] == Put(info, color, old(buffer[..]), x, y);
        return true;
      }
      match info.format {
        case Rgb =>
          ok := PutThree(base, color.r, color.g, color.b);
        case Bgr =>
          ok := PutThree(base, color.b, color.g, color.r);
        case U8 =>
          ok := Set(base, (color.r + color.g + color.b) / 3);
        case Unknown =>
          ok := true;
      }
      assert buffer[..] == Put(info, color, old(buffer[..]), x, y);
    }

    /** `fill_rect`; false for a panic. */
    method FillRect(rect: Rect, color: Color) returns (ok: bool)
      modifies buffer
      ensures (buffer[..], ok) == Fill(info, color, old(buffer[..]), rect)
    {
      ghost var goal := Fill(info, color, buffer[..], rect);
      var row, rowEnd := rect.y, RowEnd(info, rect);
      while row < rowEnd
        invariant PutRows(info, color, buffer[..], rect, row, rowEnd) == goal
      {
        ok := FillRow(rect, color, row);
        if !ok {
          return;
        }
        row := row + 1;
      }
      ok := true;
    }

    /** The inner loop of `fill_rect`. */
    method FillRow(rect: Rect, color: Color, row: nat) returns (ok: bool)
      modifies buffer
      ensures (buffer[..], ok)
           == PutRow(info, color, old(buffer[..]), row, rect.x, ColumnEnd(info, rect))
    {
      var col, colEnd := rect.x, ColumnEnd(info, rect);
      ghost var goal := PutRow(info, color, buffer[..], row, col, colEnd);
      while col < colEnd
        invariant PutRow(info, color, buffer[..], row, col, colEnd) == goal
      {
        ok := PutPixel(col, row, color);
        if !ok {
          return;
        }
        col := col + 1;
      }
      ok := true;
    }
  }
}
