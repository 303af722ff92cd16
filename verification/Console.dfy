/** The text console: a buffer of 25 rows that scrolls, and the terminal with unboundedly
    many rows of which it shows the last 25. */
module Console {
  import opened Words

  const WIDTH: nat := 80
  const HEIGHT: nat := 25
  const SIZE: nat := 2000

  const BACKSPACE: Byte := 8
  const TAB: Byte := 9
  const NEWLINE: Byte := 10
  const RETURN: Byte := 13
  const SPACE: Byte := 32

  datatype Cell = Cell(code: Byte, color: Byte)

  /** A character is signed: from 128 on its sign extension covers the colour. */
  function MakeCell(c: Byte, color: Byte): (cell: Cell) { if c < 128 then Cell(c, color) else Cell(c, 255) }

  /** One of the sixteen colours. */
  type Shade = s: nat | s < 16

  function MakeColor(fg: Shade, bg: Shade): (color: Byte)
    ensures color % 16 == fg && color / 16 == bg
  {
    fg + 16 * bg
  }

  type Row = r: seq<Cell> | |r| == WIDTH ghost witness seq(WIDTH, _ => Cell(0, 0))

  ghost function BlankRow(color: Byte): (r: Row) { seq(WIDTH, _ => MakeCell(SPACE, color)) }

  // ----- the terminal

  datatype Terminal = Terminal(rows: seq<Row>, x: nat, y: nat, color: Byte)

  /** At least a screenful of rows, and the cursor in one of the last 25. */
  ghost predicate TerminalOk(t: Terminal) {
    |t.rows| >= HEIGHT && t.x < WIDTH && |t.rows| - HEIGHT <= t.y < |t.rows|
  }

  ghost function ClearedTerminal(color: Byte): (t: Terminal)
    ensures TerminalOk(t)
  {
    Terminal(seq(HEIGHT, _ => BlankRow(color)), 0, 0, color)
  }

  /** The cursor goes to the start of the next row; behind the last one a blank row
      appears. */
  ghost function NextRow(t: Terminal): (r: Terminal)
    requires TerminalOk(t)
    ensures TerminalOk(r)
  {
    Terminal(if t.y + 1 == |t.rows| then t.rows + [BlankRow(t.color)] else t.rows, 0, t.y + 1, t.color)
  }

  /** The cursor moves to a column, on to the next row from the last column. */
  ghost function MoveTo(t: Terminal, x: nat): (r: Terminal)
    requires TerminalOk(t) && x <= WIDTH
    ensures TerminalOk(r)
  {
    if x == WIDTH then NextRow(t) else t.(x := x)
  }

  ghost function Typed(t: Terminal, c: Byte): (r: Terminal)
    requires TerminalOk(t)
    ensures TerminalOk(r)
  {
    if c == NEWLINE then NextRow(t)
    else if c == RETURN then t.(x := 0)
    else if c == TAB then MoveTo(t, t.x - t.x % 4 + 4)
    else if c == BACKSPACE then t.(x := if t.x > 0 then t.x - 1 else 0)
    else MoveTo(t.(rows := t.rows[t.y := t.rows[t.y][t.x := MakeCell(c, t.color)]]), t.x + 1)
  }

  ghost function TypedAll(t: Terminal, s: seq<Byte>): (r: Terminal)
    requires TerminalOk(t)
    ensures TerminalOk(r)
  {
    if s == [] then t else Typed(TypedAll(t, s[..|s| - 1]), s[|s| - 1])
  }

  datatype Op = PutChar(c: Byte) | SetColor(fg: Shade, bg: Shade) | Clear

  ghost function Step(t: Terminal, op: Op): (r: Terminal)
    requires TerminalOk(t)
    ensures TerminalOk(r)
  {
    match op
    case PutChar(c) => Typed(t, c)
    case SetColor(fg, bg) => t.(color := MakeColor(fg, bg))
    case Clear => ClearedTerminal(t.color)
  }

  ghost function Run(t: Terminal, ops: seq<Op>): (r: Terminal)
    requires TerminalOk(t)
    ensures TerminalOk(r)
  {
    if ops == [] then t else Step(Run(t, ops[..|ops| - 1]), ops[|ops| - 1])
  }

  predicate Printable(c: Byte) { c != NEWLINE && c != RETURN && c != TAB && c != BACKSPACE }

  /** A tab goes to the next column that is a multiple of 4, or from the last four columns to
      the start of the next row, and writes nothing. */
  lemma TabStops(t: Terminal)
    requires TerminalOk(t)
    ensures var r := Typed(t, 9);
            if t.x < 76 then r == t.(x := r.x) && r.x % 4 == 0 && t.x < r.x <= t.x + 4
            else r.x == 0 && r.y == t.y + 1 && r.color == t.color && t.rows <= r.rows
  {
  }

  /** A backspace goes one column back in the row, a return to its start, and a newline to
      the start of the next row; none of them writes anything. */
  lemma CursorKeys(t: Terminal)
    requires TerminalOk(t)
    ensures Typed(t, 8) == t.(x := if t.x == 0 then 0 else t.x - 1)
    ensures Typed(t, 13) == t.(x := 0)
    ensures var r := Typed(t, 10); r.x == 0 && r.y == t.y + 1 && r.color == t.color && t.rows <= r.rows
    ensures |Typed(t, 10).rows| == if t.y + 1 == |t.rows| then |t.rows| + 1 else |t.rows|
  {
  }

  /** Rows above the cursor are final. */
  lemma {:induction false} HistoryIsFinal(t: Terminal, s: seq<Byte>, i: nat)
    requires TerminalOk(t) && i < t.y
    ensures t.y <= TypedAll(t, s).y && |t.rows| <= |TypedAll(t, s).rows| && TypedAll(t, s).rows[i] == t.rows[i]
  {
    if s != [] {
      HistoryIsFinal(t, s[..|s| - 1], i);
    }
  }

  /** Text that fits in the row appears in it, one cell after the other, and nothing else
      changes. */
  lemma {:induction false} TextAppears(t: Terminal, s: seq<Byte>)
    requires TerminalOk(t) && t.x + |s| < WIDTH && forall c :: c in s ==> Printable(c)
    ensures var row := t.rows[t.y];
            TypedAll(t, s) == t.(x := t.x + |s|, rows := t.rows[t.y := row[..t.x] + Cells(s, t.color) + row[t.x + |s|..]])
  {
    if s == [] {
      assert t.rows[t.y][..t.x] + Cells(s, t.color) + t.rows[t.y][t.x..] == t.rows[t.y];
    } else {
      var init, c, row := s[..|s| - 1], s[|s| - 1], t.rows[t.y];
      TextAppears(t, init);
      assert c in s;
      var row' := row[..t.x] + Cells(init, t.color) + row[t.x + |init|..];
      assert row'[t.x + |init| := MakeCell(c, t.color)] == row[..t.x] + Cells(s, t.color) + row[t.x + |s|..];
    }
  }

  ghost function Cells(s: seq<Byte>, color: Byte): (cells: seq<Cell>)
    ensures |cells| == |s|
    ensures forall i :: 0 <= i < |s| ==> cells[i] == MakeCell(s[i], color)
  {
    seq(|s|, i requires 0 <= i < |s| => MakeCell(s[i], color))
  }

  // ----- what the buffer shows

  /** The buffer holds the last 25 rows, one after the other. */
  ghost predicate ShowsRows(buffer: seq<Cell>, rows: seq<Row>) {
    && |buffer| == SIZE && |rows| >= HEIGHT
    && forall i: nat :: i < SIZE ==> buffer[i] == CellAt(rows, i)
  }

  ghost function CellAt(rows: seq<Row>, i: nat): (c: Cell)
    requires |rows| >= HEIGHT && i < SIZE
  {
    rows[|rows| - HEIGHT + i / WIDTH][i % WIDTH]
  }

  ghost predicate Blank(buffer: seq<Cell>, from: nat, color: Byte) {
    forall i: nat :: from <= i < |buffer| ==> buffer[i] == MakeCell(SPACE, color)
  }

  ghost predicate MovedUp(before: seq<Cell>, after: seq<Cell>, upTo: nat) {
    |before| == |after| == SIZE && forall i: nat :: i < upTo && i + WIDTH < SIZE ==> after[i] == before[i + WIDTH]
  }

  lemma BlankShown(buffer: seq<Cell>, color: Byte)
    requires |buffer| == SIZE && Blank(buffer, 0, color)
    ensures ShowsRows(buffer, ClearedTerminal(color).rows)
  {
  }

  lemma StoreShown(buffer: seq<Cell>, rows: seq<Row>, r: nat, c: nat, cell: Cell)
    requires ShowsRows(buffer, rows) && r < HEIGHT && c < WIDTH
    ensures var k := |rows| - HEIGHT + r;
            ShowsRows(buffer[r * WIDTH + c := cell], rows[k := rows[k][c := cell]])
  {
    var k := |rows| - HEIGHT + r;
    var rows' := rows[k := rows[k][c := cell]];
    forall i: nat | i < SIZE
      ensures buffer[r * WIDTH + c := cell][i] == CellAt(rows', i)
    {
      assert i == i / WIDTH * WIDTH + i % WIDTH;
      assert buffer[i] == CellAt(rows, i);
    }
  }

  lemma ScrollShown(before: seq<Cell>, after: seq<Cell>, rows: seq<Row>, color: Byte)
    requires ShowsRows(before, rows) && MovedUp(before, after, SIZE) && Blank(after, SIZE - WIDTH, color)
    ensures ShowsRows(after, rows + [BlankRow(color)])
  {
    var rows' := rows + [BlankRow(color)];
    forall i: nat | i < SIZE
      ensures after[i] == CellAt(rows', i)
    {
      if i < SIZE - WIDTH {
        assert before[i + WIDTH] == CellAt(rows, i + WIDTH);
        assert (i + WIDTH) / WIDTH == i / WIDTH + 1 && (i + WIDTH) % WIDTH == i % WIDTH;
      }
    }
  }

  // ----- the console

  class Console {
    const buffer: array<Cell>
    var x: nat
    var y: nat
    var color: Byte

    /** The cursor is in bounds. */
    ghost predicate Valid()
      reads this
    {
      buffer.Length == SIZE && x < WIDTH && y < HEIGHT
    }

    /** The buffer holds the last 25 rows of the terminal, and the cursors agree. */
    ghost predicate Shows(t: Terminal)
      reads this, buffer
    {
      && Valid() && TerminalOk(t) && x == t.x && color == t.color && y == t.y - (|t.rows| - HEIGHT)
      && ShowsRows(buffer[..], t.rows)
    }

    constructor ()
      ensures Shows(ClearedTerminal(MakeColor(7, 0))) && fresh(buffer)
    {
      buffer := new Cell[SIZE](_ => Cell(0, 0));
      x, y, color := 0, 0, MakeColor(7, 0);
      new;
      Clear();
    }

    method Clear()
      requires buffer.Length == SIZE
      modifies this, buffer
      ensures color == old(color) && Shows(ClearedTerminal(color))
    {
      for r := 0 to HEIGHT
        invariant color == old(color)
        invariant forall i: nat :: i < r * WIDTH ==> buffer[i] == MakeCell(SPACE, color)
      {
        for c := 0 to WIDTH
          invariant color == old(color)
          invariant forall i: nat :: i < r * WIDTH + c ==> buffer[i] == MakeCell(SPACE, color)
        {
          buffer[r * WIDTH + c] := MakeCell(SPACE, color);
        }
      }
      x, y := 0, 0;
      BlankShown(buffer[..], color);
    }

    method SetColor(fg: Shade, bg: Shade, ghost t: Terminal)
      requires Shows(t)
      modifies this
      ensures Shows(t.(color := MakeColor(fg, bg)))
    {
      color := MakeColor(fg, bg);
    }

    /** Every row moves up and the last one is blank. */
    method Scroll()
      requires buffer.Length == SIZE
      modifies this`y, buffer
      ensures y == HEIGHT - 1
      ensures MovedUp(old(buffer[..]), buffer[..], SIZE) && Blank(buffer[..], SIZE - WIDTH, color)
    {
      ghost var before := buffer[..];
      for r := 0 to HEIGHT - 1
        invariant MovedUp(before, buffer[..], r * WIDTH)
        invariant forall i: nat :: r * WIDTH <= i < SIZE ==> buffer[i] == before[i]
      {
        for c := 0 to WIDTH
          invariant MovedUp(before, buffer[..], r * WIDTH + c)
          invariant forall i: nat :: r * WIDTH + c <= i < SIZE ==> buffer[i] == before[i]
        {
          buffer[r * WIDTH + c] := buffer[(r + 1) * WIDTH + c];
        }
      }
      for c := 0 to WIDTH
        invariant MovedUp(before, buffer[..], SIZE)
        invariant forall i: nat :: SIZE - WIDTH <= i < SIZE - WIDTH + c ==> buffer[i] == MakeCell(SPACE, color)
      {
        buffer[(HEIGHT - 1) * WIDTH + c] := MakeCell(SPACE, color);
      }
      y := HEIGHT - 1;
    }

    /** After a character the console shows the terminal after that character. */
    method PutChar(c: Byte, ghost t: Terminal)
      requires Shows(t)
      modifies this, buffer
      ensures Shows(Typed(t, c))
    {
      hide ShowsRows;
      hide MovedUp;
      hide Blank;
      hide MakeCell;
      hide BlankRow;
      ghost var rows := t.rows;
      if c == NEWLINE {
        x, y := 0, y + 1;
      } else if c == RETURN {
        x := 0;
      } else if c == TAB {
        x := x + 4 - (x + 4) % 4;
      } else if c == BACKSPACE {
        if x > 0 {
          x := x - 1;
        }
      } else {
        StoreShown(buffer[..], rows, y, x, MakeCell(c, color));
        rows := rows[t.y := rows[t.y][x := MakeCell(c, color)]];
        buffer[y * WIDTH + x] := MakeCell(c, color);
        x := x + 1;
      }
      if x >= WIDTH {
        x, y := 0, y + 1;
      }
      if y >= HEIGHT {
        ghost var before := buffer[..];
        Scroll();
        ScrollShown(before, buffer[..], rows, color);
      }
    }

    /** After any characters the console shows the terminal after those characters. */
    method Write(s: seq<Byte>, ghost t: Terminal)
      requires Shows(t)
      modifies this, buffer
      ensures Shows(TypedAll(t, s))
    {
      hide Typed;
      hide ShowsRows;
      assert s[..0] == [];
      for i := 0 to |s|
        invariant Shows(TypedAll(t, s[..i]))
      {
        assert s[..i + 1][..i] == s[..i];
        PutChar(s[i], TypedAll(t, s[..i]));
      }
      assert s[..|s|] == s;
    }

    /** After any run of calls the console shows the terminal after that run. */
    method RunOps(ops: seq<Op>, ghost t: Terminal)
      requires Shows(t)
      modifies this, buffer
      ensures Shows(Run(t, ops))
    {
      hide Typed;
      hide ShowsRows;
      assert ops[..0] == [];
      for i := 0 to |ops|
        invariant Shows(Run(t, ops[..i]))
      {
        assert ops[..i + 1][..i] == ops[..i];
        match ops[i] {
          case PutChar(c) => PutChar(c, Run(t, ops[..i]));
          case SetColor(fg, bg) => SetColor(fg, bg, Run(t, ops[..i]));
          case Clear => Clear();
        }
      }
      assert ops[..|ops|] == ops;
    }
  }
}
