/**
 An unbounded terminal: the reference for the VGA text writer. Rows are never
 lost; the cursor row only moves down. `tape` holds the rows one after another.
 */
module Scrollback {
  import opened Wrappers

  const WIDTH: nat := 80
  const HEIGHT: nat := 25
  const NEWLINE: byte := 0x0A
  const SPACE: byte := 0x20

  datatype Cell = Cell(ch: byte, color: byte)

  datatype Terminal = Terminal(tape: seq<Cell>, rows: nat, row: nat, col: nat, color: byte)
  {
    /** The cursor is on one of the last 25 rows, at most one column past the end. */
    predicate Ok() {
      && |tape| == WIDTH * rows && HEIGHT <= rows
      && rows - HEIGHT <= row < rows && col <= WIDTH
    }

    /** The last 25 rows. */
    function Screen(): seq<Cell>
      requires Ok()
    {
      tape[WIDTH * (rows - HEIGHT)..]
    }
  }

  function Blanks(n: nat, color: byte): (s: seq<Cell>)
    ensures |s| == n && forall i :: 0 <= i < n ==> s[i] == Cell(SPACE, color)
  {
    seq(n, _ => Cell(SPACE, color))
  }

  function Cleared(color: byte): (t: Terminal)
    ensures t.Ok()
  {
    Terminal(Blanks(WIDTH * HEIGHT, color), HEIGHT, 0, 0, color)
  }

  function NewLine(t: Terminal): (r: Terminal)
    requires t.Ok()
    ensures r.Ok()
  {
    if t.row < t.rows - 1 then t.(row := t.row + 1, col := 0)
    else t.(tape := t.tape + Blanks(WIDTH, t.color), rows := t.rows + 1, row := t.row + 1, col := 0)
  }

  /** Writes at the cursor, which must not be past the end of its row. */
  function Put(t: Terminal, b: byte): (r: Terminal)
    requires t.Ok() && t.col < WIDTH
    ensures r.Ok()
  {
    t.(tape := t.tape[WIDTH * t.row + t.col := Cell(b, t.color)], col := t.col + 1)
  }

  /** A full row wraps only when another character comes. */
  function Write(t: Terminal, b: byte): (r: Terminal)
    requires t.Ok()
    ensures r.Ok()
  {
    if b == NEWLINE then NewLine(t)
    else if t.col >= WIDTH then Put(NewLine(t), b)
    else Put(t, b)
  }

  function Backspace(t: Terminal): (r: Terminal)
    requires t.Ok()
    ensures r.Ok()
  {
    if t.col == 0 then t
    else t.(tape := t.tape[WIDTH * t.row + (t.col - 1) := Cell(SPACE, t.color)], col := t.col - 1)
  }

  datatype Op = OpByte(b: byte) | OpColor(color: byte) | OpBackspace | OpClear

  function Apply(t: Terminal, op: Op): (r: Terminal)
    requires t.Ok()
    ensures r.Ok()
  {
    match op
    case OpByte(b) => Write(t, b)
    case OpColor(color) => t.(color := color)
    case OpBackspace => Backspace(t)
    case OpClear => Cleared(t.color)
  }

  function Run(t: Terminal, ops: seq<Op>): (r: Terminal)
    requires t.Ok()
    ensures r.Ok()
  {
    if ops == [] then t else Apply(Run(t, ops[..|ops| - 1]), ops[|ops| - 1])
  }

  /** Rows above the cursor are history: without a clear no operation changes them. */
  lemma {:induction false} HistoryKept(t: Terminal, ops: seq<Op>)
    requires t.Ok() && OpClear !in ops
    ensures var r := Run(t, ops);
      && t.row <= r.row && t.rows <= r.rows
      && r.tape[..WIDTH * t.row] == t.tape[..WIDTH * t.row]
    decreases |ops|
  {
    if ops != [] {
      HistoryKept(t, ops[..|ops| - 1]);
      var m := Run(t, ops[..|ops| - 1]);
      AboveCursorKept(m, ops[|ops| - 1]);
      var r := Run(t, ops);
      assert m.tape[..WIDTH * m.row][..WIDTH * t.row] == m.tape[..WIDTH * t.row];
      assert r.tape[..WIDTH * m.row][..WIDTH * t.row] == r.tape[..WIDTH * t.row];
    }
  }

  lemma AboveCursorKept(t: Terminal, op: Op)
    requires t.Ok() && op != OpClear
    ensures var r := Apply(t, op);
      t.row <= r.row && t.rows <= r.rows && r.tape[..WIDTH * t.row] == t.tape[..WIDTH * t.row]
  {}

  // ---- what a text looks like ----

  /** The text cut at its newlines. */
  function Split(text: seq<byte>): (r: seq<seq<byte>>)
    ensures r != []
  {
    if text == [] then [[]]
    else
      var head := Split(text[..|text| - 1]);
      if text[|text| - 1] == NEWLINE then head + [[]]
      else head[|head| - 1 := head[|head| - 1] + [text[|text| - 1]]]
  }

  /** A line cut into pieces of 80, the last one shorter if need be; the empty line is one piece. */
  function Chunks(line: seq<byte>): (r: seq<seq<byte>>)
    ensures r != []
  {
    if |line| <= WIDTH then [line] else [line[..WIDTH]] + Chunks(line[WIDTH..])
  }

  function ChunkAll(lines: seq<seq<byte>>): seq<seq<byte>> {
    if lines == [] then [] else ChunkAll(lines[..|lines| - 1]) + Chunks(lines[|lines| - 1])
  }

  /** The screen rows a text fills: cut at newlines, then into rows of 80. */
  function Wrapped(text: seq<byte>): seq<seq<byte>> {
    ChunkAll(Split(text))
  }

  function Join(lines: seq<seq<byte>>): seq<byte> {
    if lines == [] then []
    else if |lines| == 1 then lines[0]
    else Join(lines[..|lines| - 1]) + [NEWLINE] + lines[|lines| - 1]
  }

  /** Splitting loses nothing and leaves no newline inside a line. */
  lemma {:induction false} SplitIsExact(text: seq<byte>)
    ensures Join(Split(text)) == text
    ensures forall i :: 0 <= i < |Split(text)| ==> NEWLINE !in Split(text)[i]
    decreases |text|
  {
    if text != [] {
      var init, b := text[..|text| - 1], text[|text| - 1];
      SplitIsExact(init);
      var head, lines := Split(init), Split(text);
      assert text == init + [b];
      if b == NEWLINE {
        assert lines[..|lines| - 1] == head;
        assert Join(lines) == Join(head) + [NEWLINE] + [];
      } else {
        assert lines[..|lines| - 1] == head[..|head| - 1];
      }
    }
  }

  function Concat(parts: seq<seq<byte>>): seq<byte> {
    if parts == [] then [] else parts[0] + Concat(parts[1..])
  }

  /** Chunking loses nothing: full rows of 80, then at most 80 more. */
  lemma {:induction false} ChunksAreExact(line: seq<byte>)
    ensures Concat(Chunks(line)) == line
    ensures forall i :: 0 <= i < |Chunks(line)| - 1 ==> |Chunks(line)[i]| == 80
    ensures |Chunks(line)[|Chunks(line)| - 1]| <= 80
    ensures line != [] ==> Chunks(line)[|Chunks(line)| - 1] != []
    decreases |line|
  {
    if |line| > WIDTH {
      ChunksAreExact(line[WIDTH..]);
      assert Chunks(line)[1..] == Chunks(line[WIDTH..]);
      assert line[..WIDTH] + line[WIDTH..] == line;
    } else {
      assert Chunks(line)[1..] == [];
      assert line + [] == line;
    }
  }

  /** A character joins the last row, or starts a new one if that is full. */
  function Extend(rows: seq<seq<byte>>, b: byte): seq<seq<byte>>
    requires rows != []
  {
    var last := rows[|rows| - 1];
    if |last| >= WIDTH then rows + [[b]] else rows[|rows| - 1 := last + [b]]
  }

  lemma {:induction false} ChunksExtend(line: seq<byte>, b: byte)
    ensures Chunks(line + [b]) == Extend(Chunks(line), b)
    decreases |line|
  {
    if |line| > WIDTH {
      assert (line + [b])[..WIDTH] == line[..WIDTH];
      assert (line + [b])[WIDTH..] == line[WIDTH..] + [b];
      ChunksExtend(line[WIDTH..], b);
    } else if |line| == WIDTH {
      assert (line + [b])[..WIDTH] == line;
      assert (line + [b])[WIDTH..] == [b];
    }
  }

  lemma ExtendPrefix(a: seq<seq<byte>>, c: seq<seq<byte>>, b: byte)
    requires c != []
    ensures Extend(a + c, b) == a + Extend(c, b)
  {
    assert (a + c)[|a + c| - 1] == c[|c| - 1];
  }

  lemma ChunkAllSnoc(lines: seq<seq<byte>>, line: seq<byte>)
    ensures ChunkAll(lines + [line]) == ChunkAll(lines) + Chunks(line)
  {
    assert (lines + [line])[..|lines|] == lines;
  }

  /** Growing a text by one byte grows its rows at the end only. */
  lemma WrappedSnoc(text: seq<byte>, b: byte)
    ensures Wrapped(text) != []
    ensures Wrapped(text + [b]) == if b == NEWLINE then Wrapped(text) + [[]] else Extend(Wrapped(text), b)
  {
    var lines := Split(text);
    assert (text + [b])[..|text|] == text;
    if b == NEWLINE {
      ChunkAllSnoc(lines, []);
    } else {
      var init, last := lines[..|lines| - 1], lines[|lines| - 1];
      assert lines[|lines| - 1 := last + [b]] == init + [last + [b]];
      ChunkAllSnoc(init, last + [b]);
      ChunksExtend(last, b);
      ExtendPrefix(ChunkAll(init), Chunks(last), b);
    }
  }

  /** `t` shows `rows` in one colour on an otherwise blank tape, the cursor behind the last of them. */
  predicate Shows(t: Terminal, rows: seq<seq<byte>>, color: byte)
    requires t.Ok()
  {
    && rows != [] && t.color == color && t.row == |rows| - 1 && t.col == |rows[|rows| - 1]|
    && t.rows == (if |rows| <= HEIGHT then HEIGHT else |rows|)
    && (forall r :: 0 <= r < |rows| ==> |rows[r]| <= WIDTH)
    && (forall r, c :: 0 <= r < t.rows && 0 <= c < WIDTH ==> ShownAt(t, rows, r, c))
  }

  /** The cell at row `r`, column `c` shows its character, or a blank. */
  predicate ShownAt(t: Terminal, rows: seq<seq<byte>>, r: nat, c: nat)
    requires t.Ok() && r < t.rows && c < WIDTH
  {
    t.tape[WIDTH * r + c] == Cell(if r < |rows| && c < |rows[r]| then rows[r][c] else SPACE, t.color)
  }

  lemma ShowsNewLine(t: Terminal, rows: seq<seq<byte>>, color: byte)
    requires t.Ok() && Shows(t, rows, color)
    ensures Shows(NewLine(t), rows + [[]], color)
  {
    var u, rows' := NewLine(t), rows + [[]];
    forall r, c | 0 <= r < u.rows && 0 <= c < WIDTH ensures ShownAt(u, rows', r, c) {
      assert r < t.rows ==> ShownAt(t, rows, r, c);
    }
  }

  lemma ShowsPut(t: Terminal, rows: seq<seq<byte>>, color: byte, b: byte)
    requires t.Ok() && Shows(t, rows, color) && t.col < WIDTH
    ensures Shows(Put(t, b), rows[|rows| - 1 := rows[|rows| - 1] + [b]], color)
  {
    var u, rows' := Put(t, b), rows[|rows| - 1 := rows[|rows| - 1] + [b]];
    forall r, c | 0 <= r < u.rows && 0 <= c < WIDTH ensures ShownAt(u, rows', r, c) {
      assert ShownAt(t, rows, r, c);
    }
  }

  lemma ShowsWrite(t: Terminal, rows: seq<seq<byte>>, color: byte, b: byte)
    requires t.Ok() && Shows(t, rows, color)
    ensures Shows(Write(t, b), if b == NEWLINE then rows + [[]] else Extend(rows, b), color)
  {
    if b == NEWLINE {
      ShowsNewLine(t, rows, color);
    } else if t.col >= WIDTH {
      ShowsNewLine(t, rows, color);
      ShowsPut(NewLine(t), rows + [[]], color, b);
      var last: seq<byte> := (rows + [[]])[|rows|];
      assert last + [b] == [b];
      assert (rows + [[]])[|rows| := [b]] == rows + [[b]];
    } else {
      ShowsPut(t, rows, color, b);
    }
  }

  function Bytes(text: seq<byte>): (ops: seq<Op>)
    ensures |ops| == |text|
  {
    seq(|text|, i requires 0 <= i < |text| => OpByte(text[i]))
  }

  // ---- text with corrections ----

  /** The last character of the last row taken off; an empty last row stays. */
  function Erase(rows: seq<seq<byte>>): seq<seq<byte>>
    requires rows != []
  {
    var last := rows[|rows| - 1];
    if last == [] then rows else rows[|rows| - 1 := last[..|last| - 1]]
  }

  /** The rows a sequence of bytes and backspaces leaves, edited at their end only. */
  function Edited(ops: seq<Op>): (rows: seq<seq<byte>>)
    ensures rows != []
  {
    if ops == [] then [[]]
    else
      var rows := Edited(ops[..|ops| - 1]);
      match ops[|ops| - 1]
      case OpByte(b) => if b == NEWLINE then rows + [[]] else Extend(rows, b)
      case OpBackspace => Erase(rows)
      case _ => rows
  }

  predicate IsEdit(op: Op) {
    op.OpByte? || op.OpBackspace?
  }

  lemma ShowsBackspace(t: Terminal, rows: seq<seq<byte>>, color: byte)
    requires t.Ok() && Shows(t, rows, color)
    ensures Shows(Backspace(t), Erase(rows), color)
  {
    var u, rows' := Backspace(t), Erase(rows);
    forall r, c | 0 <= r < u.rows && 0 <= c < WIDTH ensures ShownAt(u, rows', r, c) {
      assert ShownAt(t, rows, r, c);
    }
  }

  /** Any bytes and backspaces on a cleared terminal: it shows the rows edited at their end, and nothing else. */
  lemma {:induction false} EditsShown(ops: seq<Op>, color: byte)
    requires forall i :: 0 <= i < |ops| ==> IsEdit(ops[i])
    ensures Shows(Run(Cleared(color), ops), Edited(ops), color)
    decreases |ops|
  {
    if ops != [] {
      var init, op := ops[..|ops| - 1], ops[|ops| - 1];
      EditsShown(init, color);
      assert IsEdit(op);
      match op
      case OpByte(b) => ShowsWrite(Run(Cleared(color), init), Edited(init), color, b);
      case OpBackspace => ShowsBackspace(Run(Cleared(color), init), Edited(init), color);
    }
  }

  lemma {:induction false} EditedText(text: seq<byte>)
    ensures Edited(Bytes(text)) == Wrapped(text)
    decreases |text|
  {
    if text == [] {
      assert Wrapped(text) == [[]];
    } else {
      var init, b := text[..|text| - 1], text[|text| - 1];
      assert text == init + [b];
      assert Bytes(text)[..|text| - 1] == Bytes(init);
      EditedText(init);
      WrappedSnoc(init, b);
    }
  }

  /** Written to a cleared terminal, any text appears as its wrapped rows and nothing else. */
  lemma TextIsWrapped(text: seq<byte>, color: byte)
    ensures Shows(Run(Cleared(color), Bytes(text)), Wrapped(text), color)
  {
    EditsShown(Bytes(text), color);
    EditedText(text);
  }

  lemma EraseExtend(rows: seq<seq<byte>>, b: byte)
    requires rows != []
    ensures Erase(Extend(rows, b)) == if |rows[|rows| - 1]| >= WIDTH then rows + [[]] else rows
  {
    var last := rows[|rows| - 1];
    if |last| >= WIDTH {
      assert (rows + [[b]])[|rows| := []] == rows + [[]];
    } else {
      assert (last + [b])[..|last|] == last;
    }
  }

  /**
   A character and a backspace behind any text: the terminal shows the wrapped text with
   the character taken off again. That is the text as before, except that a character
   that wrapped leaves the cursor on the new, empty row.
   */
  lemma TypedAndErased(text: seq<byte>, b: byte, color: byte)
    requires b != NEWLINE
    ensures Wrapped(text) != [] && Wrapped(text + [b]) != []
    ensures Shows(Run(Cleared(color), Bytes(text) + [OpByte(b)] + [OpBackspace]), Erase(Wrapped(text + [b])), color)
    ensures var rows := Wrapped(text);
      Erase(Wrapped(text + [b])) == if |rows[|rows| - 1]| >= WIDTH then rows + [[]] else rows
  {
    var ops := Bytes(text) + [OpByte(b)];
    assert ops == Bytes(text + [b]);
    EditedText(text + [b]);
    assert (ops + [OpBackspace])[..|ops|] == ops;
    EditsShown(ops + [OpBackspace], color);
    WrappedSnoc(text, b);
    EraseExtend(Wrapped(text), b);
  }

  // ---- one operation on any terminal ----

  /** A backspace blanks the cell before the cursor in the current colour and nothing else; at column 0 nothing. */
  lemma BackspaceIs(t: Terminal)
    requires t.Ok()
    ensures var r := Run(t, [OpBackspace]);
      if t.col == 0 then r == t
      else
        && r.col == t.col - 1 && r == t.(tape := r.tape, col := r.col) && |r.tape| == |t.tape|
        && (forall i :: 0 <= i < |t.tape| ==>
              r.tape[i] == if i == WIDTH * r.row + r.col then Cell(SPACE, t.color) else t.tape[i])
  {
    assert Run(t, [OpBackspace]) == Apply(Run(t, []), OpBackspace);
  }

  /** A character in a new colour: it stands before the cursor in that colour; rows it adds are blank; the rest stays. */
  lemma ColoredWrite(t: Terminal, color: byte, b: byte)
    requires t.Ok() && b != NEWLINE
    ensures var r := Run(t, [OpColor(color)] + [OpByte(b)]);
      && r.color == color && 0 < r.col && |t.tape| <= |r.tape|
      && (t.col < WIDTH ==> r.row == t.row && r.col == t.col + 1)
      && (t.col >= WIDTH ==> r.row == t.row + 1 && r.col == 1)
      && (forall i :: 0 <= i < |r.tape| ==>
            r.tape[i] == if i == WIDTH * r.row + (r.col - 1) then Cell(b, color)
                         else if i < |t.tape| then t.tape[i] else Cell(SPACE, color))
  {
    var ops := [OpColor(color)] + [OpByte(b)];
    var u := t.(color := color);
    assert ops[..1] == [OpColor(color)];
    assert Run(t, [OpColor(color)]) == Apply(Run(t, []), OpColor(color)) == u;
    assert Run(t, ops) == Write(u, b);
  }

  /** Row `r`, column `c` of a 25 by 80 grid shows the last rows of `rows`. */
  predicate GridShowsAt(grid: seq<Cell>, rows: seq<seq<byte>>, color: byte, r: nat, c: nat)
    requires |grid| == WIDTH * HEIGHT && r < HEIGHT && c < WIDTH
  {
    var k := if |rows| <= HEIGHT then r else |rows| - HEIGHT + r;
    grid[WIDTH * r + c] == Cell(if k < |rows| && c < |rows[k]| then rows[k][c] else SPACE, color)
  }

  predicate GridShows(grid: seq<Cell>, rows: seq<seq<byte>>, color: byte)
    requires |grid| == WIDTH * HEIGHT
  {
    forall r, c :: 0 <= r < HEIGHT && 0 <= c < WIDTH ==> GridShowsAt(grid, rows, color, r, c)
  }

  lemma ScreenShows(t: Terminal, rows: seq<seq<byte>>, color: byte)
    requires t.Ok() && Shows(t, rows, color)
    ensures GridShows(t.Screen(), rows, color)
  {
    var top := t.rows - HEIGHT;
    forall r, c | 0 <= r < HEIGHT && 0 <= c < WIDTH ensures GridShowsAt(t.Screen(), rows, color, r, c) {
      assert ShownAt(t, rows, top + r, c);
      assert t.Screen()[WIDTH * r + c] == t.tape[WIDTH * top + (WIDTH * r + c)];
    }
  }
}
