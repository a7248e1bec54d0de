/** The VGA text-mode writer (`vga_buffer.rs`): a 25 x 80 grid of screen
    characters that is always written on its bottom row and scrolls up by a
    row on a newline or when the row is full.  The memory-mapped buffer at
    `0xb8000` is a sequence of rows here, and the global `WRITER` behind its
    lock is a value handed from call to call. */
module Vga {
  import opened X86
  import Text

  const HEIGHT: nat := 25
  const WIDTH: nat := 80
  const NEWLINE: Byte := 0x0a
  const SPACE: Byte := 0x20
  /** What `write_string` shows instead of a byte it cannot print. */
  const UNPRINTABLE: Byte := 0xfe

  // ---------------------------------------------------------------- colours

  datatype Color = Black | Blue | Green | Cyan | Red | Magenta | Brown | LightGray
                 | DarkGray | LightBlue | LightGreen | LightCyan | LightRed | Pink | Yellow | White

  /** The palette index a colour stands for, and back. */
  function Value(c: Color): (r: nat)
    ensures r < 16 && ColorOf(r) == c
  {
    match c
    case Black => 0 case Blue => 1 case Green => 2 case Cyan => 3
    case Red => 4 case Magenta => 5 case Brown => 6 case LightGray => 7
    case DarkGray => 8 case LightBlue => 9 case LightGreen => 10 case LightCyan => 11
    case LightRed => 12 case Pink => 13 case Yellow => 14 case White => 15
  }

  function ColorOf(v: nat): Color
    requires v < 16
  {
    [Black, Blue, Green, Cyan, Red, Magenta, Brown, LightGray,
     DarkGray, LightBlue, LightGreen, LightCyan, LightRed, Pink, Yellow, White][v]
  }

  /** `ColorCode::new`: the background in the high nibble and the foreground
      in the low one; both are recovered from the byte. */
  function ColorCode(foreground: Color, background: Color): (r: Byte)
    ensures ColorOf(r % 16) == foreground && ColorOf(r / 16) == background
  {
    ModUnique(Value(background) * 16 + Value(foreground), 16, Value(background), Value(foreground));
    Value(background) * 16 + Value(foreground)
  }

  /** The colour of the global writer: yellow on black. */
  const DEFAULT_COLOR: Byte := ColorCode(Yellow, Black)

  // ---------------------------------------------------------------- the grid

  datatype ScreenChar = ScreenChar(ascii: Byte, color: Byte)

  datatype Writer = Writer(column: nat, color: Byte, chars: seq<seq<ScreenChar>>)

  /** The buffer is 25 rows of 80 characters. */
  predicate Grid(chars: seq<seq<ScreenChar>>)
  {
    |chars| == HEIGHT && forall i | 0 <= i < HEIGHT :: |chars[i]| == WIDTH
  }

  /** The writer's invariant: a full grid and a column that is at most one
      past the last cell of the bottom row. */
  predicate Valid(w: Writer)
  {
    Grid(w.chars) && w.column <= WIDTH
  }

  /** The global `WRITER` as it starts, over whatever the screen holds. */
  function InitialWriter(screen: seq<seq<ScreenChar>>): (r: Writer)
    requires Grid(screen)
    ensures Valid(r) && r.column == 0 && r.color == 0x0e
  {
    Writer(0, DEFAULT_COLOR, screen)
  }

  function Blank(color: Byte): ScreenChar
  {
    ScreenChar(SPACE, color)
  }

  function BlankRow(color: Byte): (r: seq<ScreenChar>)
    ensures |r| == WIDTH && forall j | 0 <= j < WIDTH :: r[j] == Blank(color)
  {
    seq(WIDTH, _ => Blank(color))
  }

  /** Every cell but `(row, col)` is the same in both grids. */
  predicate SameExcept(a: seq<seq<ScreenChar>>, b: seq<seq<ScreenChar>>, row: nat, col: nat)
    requires Grid(a) && Grid(b)
  {
    forall i, j | 0 <= i < HEIGHT && 0 <= j < WIDTH && (i != row || j != col) :: a[i][j] == b[i][j]
  }

  // ---------------------------------------------------------------- scrolling

  /** What `new_line` leaves: every row moved up by one, the top row gone,
      a blank bottom row in the writer's colour, and the column back at 0. */
  function Scroll(w: Writer): (r: Writer)
    requires Grid(w.chars)
    ensures Valid(r) && r.column == 0 && r.color == w.color
    ensures forall i | 0 <= i < HEIGHT - 1 :: r.chars[i] == w.chars[i + 1]
    ensures r.chars[HEIGHT - 1] == BlankRow(w.color)
  {
    Writer(0, w.color, w.chars[1..] + [BlankRow(w.color)])
  }

  /** `clear_row`: one row becomes blanks of the writer's colour. */
  method ClearRow(w: Writer, row: nat) returns (r: Writer)
    requires Grid(w.chars) && row < HEIGHT
    ensures Grid(r.chars) && r.column == w.column && r.color == w.color
    ensures r.chars[row] == BlankRow(w.color)
    ensures forall i | 0 <= i < HEIGHT && i != row :: r.chars[i] == w.chars[i]
  {
    var line := w.chars[row];
    for col := 0 to WIDTH
      invariant |line| == WIDTH
      invariant forall j | 0 <= j < col :: line[j] == Blank(w.color)
    {
      line := line[col := Blank(w.color)];
    }
    r := w.(chars := w.chars[row := line]);
  }

  /** `new_line`, cell by cell as the source copies, does what `Scroll`
      describes. */
  method NewLine(w: Writer) returns (r: Writer)
    requires Grid(w.chars)
    ensures r == Scroll(w)
  {
    var chars := w.chars;
    for row := 1 to HEIGHT
      invariant Grid(chars)
      invariant forall i | 0 <= i < row - 1 :: chars[i] == w.chars[i + 1]
      invariant forall i | row - 1 <= i < HEIGHT :: chars[i] == w.chars[i]
    {
      var line := chars[row - 1];
      for col := 0 to WIDTH
        invariant |line| == WIDTH
        invariant line[..col] == w.chars[row][..col]
        invariant line[col..] == w.chars[row - 1][col..]
      {
        line := line[col := chars[row][col]];
      }
      chars := chars[row - 1 := line];
    }
    r := ClearRow(w.(chars := chars), HEIGHT - 1);
    r := r.(column := 0);
    assert r.chars == Scroll(w).chars by {
      forall i | 0 <= i < HEIGHT
        ensures r.chars[i] == Scroll(w).chars[i]
      {
      }
    }
  }

  // ---------------------------------------------------------------- writing

  /** `write_byte`: a newline scrolls; any other byte goes on the bottom
      row at the column, after a scroll when the row is already full. */
  function WriteByte(w: Writer, b: Byte): (r: Writer)
    requires Valid(w)
    ensures Valid(r) && r.color == w.color
    ensures b == NEWLINE ==> r == Scroll(w)
    ensures b != NEWLINE ==> r.column == (if w.column < WIDTH then w.column + 1 else 1)
    ensures b != NEWLINE ==> r.chars[HEIGHT - 1][r.column - 1] == ScreenChar(b, w.color)
    ensures b != NEWLINE && w.column < WIDTH ==> SameExcept(r.chars, w.chars, HEIGHT - 1, w.column)
    ensures b != NEWLINE && w.column == WIDTH ==> SameExcept(r.chars, Scroll(w).chars, HEIGHT - 1, 0)
  {
    if b == NEWLINE then Scroll(w)
    else
      var v := if w.column >= WIDTH then Scroll(w) else w;
      var bottom := v.chars[HEIGHT - 1][v.column := ScreenChar(b, v.color)];
      Writer(v.column + 1, v.color, v.chars[HEIGHT - 1 := bottom])
  }

  predicate Printable(b: Byte)
  {
    0x20 <= b <= 0x7e
  }

  /** The byte `write_string` hands to `write_byte`: printable ASCII and
      newlines pass, anything else shows as the block character. */
  function Shown(b: Byte): (r: Byte)
    ensures r == NEWLINE || Printable(r) || r == UNPRINTABLE
    ensures (b == NEWLINE || Printable(b)) <==> (r == b && r != UNPRINTABLE)
  {
    if b == NEWLINE || Printable(b) then b else UNPRINTABLE
  }

  /** Every byte of a string, through `write_byte` unchanged. */
  function WriteBytes(w: Writer, s: seq<Byte>): (r: Writer)
    requires Valid(w)
    ensures Valid(r) && r.color == w.color
    decreases |s|
  {
    if |s| == 0 then w else WriteBytes(WriteByte(w, s[0]), s[1..])
  }

  /** `write_string`: every byte of the string, as shown. */
  function WriteString(w: Writer, s: seq<Byte>): (r: Writer)
    requires Valid(w)
    ensures Valid(r) && r.color == w.color
    decreases |s|
  {
    if |s| == 0 then w else WriteString(WriteByte(w, Shown(s[0])), s[1..])
  }

  /** `Write::write_str`: writes the string and never fails. */
  function WriteStr(w: Writer, s: seq<Byte>): (r: (Writer, Text.FmtResult))
    requires Valid(w)
    ensures Valid(r.0) && r.0.color == w.color && r.1 == Text.Ok
  {
    (WriteString(w, s), Text.Ok)
  }

  function ShownAll(s: seq<Byte>): (r: seq<Byte>)
    ensures |r| == |s| && forall k | 0 <= k < |s| :: r[k] == Shown(s[k])
  {
    seq(|s|, k requires 0 <= k < |s| => Shown(s[k]))
  }

  /** `write_string` is `write_byte` over the string with every unprintable
      byte but the newline replaced by the block character. */
  lemma {:induction false} WriteStringShowsBytes(w: Writer, s: seq<Byte>)
    requires Valid(w)
    ensures WriteString(w, s) == WriteBytes(w, ShownAll(s))
    decreases |s|
  {
    if |s| > 0 {
      WriteStringShowsBytes(WriteByte(w, Shown(s[0])), s[1..]);
      assert ShownAll(s)[1..] == ShownAll(s[1..]);
    }
  }

  /** Writing a string is writing its two halves one after the other. */
  lemma {:induction false} WriteStringAppend(w: Writer, a: seq<Byte>, b: seq<Byte>)
    requires Valid(w)
    ensures WriteString(w, a + b) == WriteString(WriteString(w, a), b)
    decreases |a|
  {
    if |a| == 0 {
      assert a + b == b;
    } else {
      var w1 := WriteByte(w, Shown(a[0]));
      assert (a + b)[0] == a[0] && (a + b)[1..] == a[1..] + b;
      assert WriteString(w, a + b) == WriteString(w1, a[1..] + b);
      assert WriteString(w, a) == WriteString(w1, a[1..]);
      WriteStringAppend(w1, a[1..], b);
    }
  }

  predicate AllPrintable(s: seq<Byte>)
  {
    forall k | 0 <= k < |s| :: Printable(s[k])
  }

  /** The cells showing `s` in one colour. */
  function Cells(s: seq<Byte>, color: Byte): (r: seq<ScreenChar>)
    ensures |r| == |s| && forall k | 0 <= k < |s| :: r[k] == ScreenChar(s[k], color)
  {
    seq(|s|, k requires 0 <= k < |s| => ScreenChar(s[k], color))
  }

  /** A byte other than a newline, written before the row is full, fills
      the cell at the column and moves the column on. */
  lemma PutCell(w: Writer, b: Byte)
    requires Valid(w) && b != NEWLINE && w.column < WIDTH
    ensures WriteByte(w, b)
            == Writer(w.column + 1, w.color,
                      w.chars[HEIGHT - 1 := w.chars[HEIGHT - 1][w.column := ScreenChar(b, w.color)]])
  {
  }

  /** Printable text that fits in the rest of the bottom row lands there
      from the column on, one cell per byte, and nothing else changes. */
  lemma {:induction false} WriteWithinRow(w: Writer, s: seq<Byte>)
    requires Valid(w) && AllPrintable(s) && w.column + |s| <= WIDTH
    ensures var r := WriteString(w, s);
      && r.column == w.column + |s|
      && r.chars[..HEIGHT - 1] == w.chars[..HEIGHT - 1]
      && r.chars[HEIGHT - 1] == w.chars[HEIGHT - 1][..w.column] + Cells(s, w.color)
                                + w.chars[HEIGHT - 1][w.column + |s|..]
    decreases |s|
  {
    if |s| == 0 {
      assert w.chars[HEIGHT - 1] == w.chars[HEIGHT - 1][..w.column] + [] + w.chars[HEIGHT - 1][w.column..];
    } else {
      var c, x := w.column, ScreenChar(s[0], w.color);
      var old_ := w.chars[HEIGHT - 1];
      var w1 := WriteByte(w, Shown(s[0]));
      assert Shown(s[0]) == s[0];
      PutCell(w, s[0]);
      assert WriteString(w, s) == WriteString(w1, s[1..]);
      WriteWithinRow(w1, s[1..]);
      assert Cells(s, w.color) == [x] + Cells(s[1..], w.color);
      SpliceStep(old_, c, x, Cells(s[1..], w.color));
    }
  }

  /** Writing `x` at `c`, then `more` right after it, is writing `[x] + more`
      at `c`. */
  lemma SpliceStep(row: seq<ScreenChar>, c: nat, x: ScreenChar, more: seq<ScreenChar>)
    requires c + 1 + |more| <= |row|
    ensures row[c := x][..c + 1] + more + row[c := x][c + 1 + |more|..]
            == row[..c] + ([x] + more) + row[c + 1 + |more|..]
  {
    assert row[c := x][..c + 1] == row[..c] + [x];
    assert row[c := x][c + 1 + |more|..] == row[c + 1 + |more|..];
  }

  /** Writing a lone newline scrolls. */
  lemma NewlineScrolls(w: Writer)
    requires Valid(w)
    ensures WriteString(w, [NEWLINE]) == Scroll(w)
  {
    assert Shown(NEWLINE) == NEWLINE && [NEWLINE][1..] == [];
    assert WriteString(w, [NEWLINE]) == WriteString(WriteByte(w, NEWLINE), []);
  }

  /** `writeln!(writer, "\n{}", s)` on a printable line that fits leaves the
      line at the start of the next-to-bottom row, blanks after it, and the
      cursor at the start of a blank bottom row. */
  lemma PrintedLineVisible(w: Writer, s: seq<Byte>)
    requires Valid(w) && AllPrintable(s) && |s| <= WIDTH
    ensures var r := WriteString(w, [NEWLINE] + s + [NEWLINE]);
      && r.column == 0
      && r.chars[HEIGHT - 1] == BlankRow(w.color)
      && r.chars[HEIGHT - 2] == Cells(s, w.color) + BlankRow(w.color)[|s|..]
  {
    var w1 := WriteString(w, [NEWLINE]);
    NewlineScrolls(w);
    var w2 := WriteString(w1, s);
    WriteWithinRow(w1, s);
    assert w1.chars[HEIGHT - 1] == BlankRow(w.color);
    assert w2.chars[HEIGHT - 1] == Cells(s, w.color) + BlankRow(w.color)[|s|..];
    var w3 := WriteString(w2, [NEWLINE]);
    NewlineScrolls(w2);
    WriteStringAppend(w, [NEWLINE], s);
    WriteStringAppend(w, [NEWLINE] + s, [NEWLINE]);
    assert w3 == WriteString(w, [NEWLINE] + s + [NEWLINE]);
  }
}
