/**
 The VGA text writer: a cursor and in-place scrolling over a fixed 25 by 80 grid
 in video memory (drivers/vga.rs). The ghost terminal never forgets a row; the
 grid is proved to be its last 25 rows after every operation.
 */
module Vga {
  import opened Wrappers
  import opened Scrollback

  const SIZE: nat := WIDTH * HEIGHT

  /** `ColorCode::new`: background in the high four bits. */
  function ColorCode(fg: nat, bg: nat): byte
    requires fg < 16 && bg < 16
  {
    bg * 16 + fg
  }

  /** What `write_string` makes of a byte that is not printable ASCII. */
  function Printable(b: byte): byte {
    if 0x20 <= b <= 0x7E || b == NEWLINE then b else 0xFE
  }

  function PrintableAll(text: seq<byte>): (r: seq<byte>)
    ensures |r| == |text|
  {
    seq(|text|, i requires 0 <= i < |text| => Printable(text[i]))
  }

  class Writer {
    const cells: array<Cell>
    var row: nat
    var col: nat
    var color: byte
    ghost var term: Terminal

    ghost predicate Valid()
      reads this, cells
    {
      && cells.Length == SIZE && term.Ok()
      && cells[..] == term.Screen()
      && row == term.row - (term.rows - HEIGHT) && col == term.col && color == term.color
    }

    /** The writer after `init`: cleared, white on black. */
    constructor (memory: array<Cell>)
      requires memory.Length == SIZE
      modifies memory
      ensures cells == memory && Valid() && term == Cleared(ColorCode(15, 0))
    {
      cells := memory;
      row := 0;
      col := 0;
      color := ColorCode(15, 0);
      new;
      Clear();
    }

    method WriteCharAt(r: nat, c: nat, ch: byte, color: byte)
      requires cells.Length == SIZE && r < HEIGHT && c < WIDTH
      modifies cells
      ensures cells[..] == old(cells[..])[r * WIDTH + c := Cell(ch, color)]
    {
      cells[r * WIDTH + c] := Cell(ch, color);
    }

    /** Moves every row up by one, in place, and blanks the last one. */
    method Scroll()
      requires cells.Length == SIZE
      modifies cells
      ensures forall k :: 0 <= k < SIZE - WIDTH ==> cells[k] == old(cells[k + WIDTH])
      ensures forall k :: SIZE - WIDTH <= k < SIZE ==> cells[k] == Cell(SPACE, color)
    {
      var r := 1;
      while r < HEIGHT
        invariant 1 <= r <= HEIGHT
        invariant forall k :: 0 <= k < (r - 1) * WIDTH ==> cells[k] == old(cells[k + WIDTH])
        invariant forall k :: (r - 1) * WIDTH <= k < SIZE ==> cells[k] == old(cells[k])
      {
        var c := 0;
        while c < WIDTH
          invariant c <= WIDTH
          invariant forall k :: 0 <= k < (r - 1) * WIDTH + c ==> cells[k] == old(cells[k + WIDTH])
          invariant forall k :: (r - 1) * WIDTH + c <= k < SIZE ==> cells[k] == old(cells[k])
        {
          var ch := cells[r * WIDTH + c];
          cells[(r - 1) * WIDTH + c] := ch;
          c := c + 1;
        }
        r := r + 1;
      }
      var c := 0;
      while c < WIDTH
        invariant c <= WIDTH
        invariant forall k :: 0 <= k < SIZE - WIDTH ==> cells[k] == old(cells[k + WIDTH])
        invariant forall k :: SIZE - WIDTH <= k < SIZE - WIDTH + c ==> cells[k] == Cell(SPACE, color)
      {
        cells[(HEIGHT - 1) * WIDTH + c] := Cell(SPACE, color);
        c := c + 1;
      }
    }

    method DoNewLine()
      requires Valid()
      modifies this, cells
      ensures Valid() && term == NewLine(old(term))
    {
      col := 0;
      if row < HEIGHT - 1 {
        row := row + 1;
      } else {
        Scroll();
      }
      ghost var before := term;
      term := NewLine(term);
      assert before.row == before.rows - 1 ==> cells[..] == term.Screen();
    }

    method WriteByte(b: byte)
      requires Valid()
      modifies this, cells
      ensures Valid() && term == Write(old(term), b)
    {
      if b == NEWLINE {
        DoNewLine();
      } else {
        if col >= WIDTH {
          DoNewLine();
        }
        WriteCharAt(row, col, b, color);
        col := col + 1;
        term := Put(term, b);
      }
    }

    method Backspace()
      requires Valid()
      modifies this, cells
      ensures Valid() && term == Scrollback.Backspace(old(term))
    {
      if col > 0 {
        col := col - 1;
        WriteCharAt(row, col, SPACE, color);
      }
      term := Scrollback.Backspace(term);
    }

    method SetColor(fg: nat, bg: nat)
      requires Valid() && fg < 16 && bg < 16
      modifies this
      ensures Valid() && term == Apply(old(term), OpColor(ColorCode(fg, bg)))
    {
      color := ColorCode(fg, bg);
      term := term.(color := color);
    }

    method Clear()
      requires cells.Length == SIZE
      modifies this, cells
      ensures Valid() && term == Cleared(old(color))
    {
      var r := 0;
      while r < HEIGHT
        invariant r <= HEIGHT && color == old(color)
        invariant forall k :: 0 <= k < r * WIDTH ==> cells[k] == Cell(SPACE, color)
      {
        var c := 0;
        while c < WIDTH
          invariant c <= WIDTH && color == old(color)
          invariant forall k :: 0 <= k < r * WIDTH + c ==> cells[k] == Cell(SPACE, color)
        {
          WriteCharAt(r, c, SPACE, color);
          c := c + 1;
        }
        r := r + 1;
      }
      row := 0;
      col := 0;
      term := Cleared(color);
      assert cells[..] == Blanks(SIZE, color);
    }

    method WriteString(s: seq<byte>)
      requires Valid()
      modifies this, cells
      ensures Valid() && term == Run(old(term), Bytes(PrintableAll(s)))
    {
      ghost var ops := Bytes(PrintableAll(s));
      var i := 0;
      while i < |s|
        invariant i <= |s| && Valid() && term == Run(old(term), ops[..i])
      {
        assert ops[..i + 1][..i] == ops[..i];
        if 0x20 <= s[i] <= 0x7E || s[i] == NEWLINE {
          WriteByte(s[i]);
        } else {
          WriteByte(0xFE);
        }
        i := i + 1;
      }
      assert ops[..i] == ops;
    }

    /** Any sequence of operations: the grid is the last 25 rows of the terminal that saw them all. */
    method Perform(ops: seq<Op>)
      requires Valid()
      modifies this, cells
      ensures Valid() && term == Run(old(term), ops)
    {
      var i := 0;
      while i < |ops|
        invariant i <= |ops| && Valid() && term == Run(old(term), ops[..i])
      {
        assert ops[..i + 1][..i] == ops[..i];
        match ops[i] {
          case OpByte(b) => WriteByte(b);
          case OpColor(c) => SetColor(c % 16, c / 16);
          case OpBackspace => Backspace();
          case OpClear => Clear();
        }
        i := i + 1;
      }
      assert ops[..i] == ops;
    }
  }

  /** `clear` and then `write_string`: the grid shows the last 25 rows of the wrapped text, the cursor behind it. */
  method ShowText(w: Writer, s: seq<byte>)
    requires w.Valid()
    modifies w, w.cells
    ensures w.Valid() && w.color == old(w.color)
    ensures var rows := Wrapped(PrintableAll(s));
      && rows != []
      && GridShows(w.cells[..], rows, w.color)
      && w.row == (if |rows| <= 25 then |rows| else 25) - 1 && w.col == |rows[|rows| - 1]|
  {
    w.Clear();
    w.WriteString(s);
    TextIsWrapped(PrintableAll(s), old(w.color));
    ScreenShows(w.term, Wrapped(PrintableAll(s)), old(w.color));
  }

  /** `clear` and then any bytes and backspaces: the grid shows the last 25 of the edited rows, the cursor behind them. */
  method ShowEdits(w: Writer, ops: seq<Op>)
    requires w.Valid() && forall i :: 0 <= i < |ops| ==> IsEdit(ops[i])
    modifies w, w.cells
    ensures w.Valid() && w.color == old(w.color)
    ensures var rows := Edited(ops);
      && GridShows(w.cells[..], rows, w.color)
      && w.row == (if |rows| <= 25 then |rows| else 25) - 1 && w.col == |rows[|rows| - 1]|
  {
    w.Clear();
    w.Perform(ops);
    EditsShown(ops, old(w.color));
    ScreenShows(w.term, Edited(ops), old(w.color));
  }

  /** What `write_string` shows: printable ASCII and newlines as they are, 0xFE for every other byte. */
  lemma PrintableAllIs(text: seq<byte>, i: nat)
    requires i < |text|
    ensures PrintableAll(text)[i] == 0xFE <==> text[i] < 0x0A || 0x0A < text[i] < 0x20 || 0x7E < text[i]
    ensures PrintableAll(text)[i] != 0xFE ==> PrintableAll(text)[i] == text[i]
  {}
}
