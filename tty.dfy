/**
 * The VGA text terminal of the `kern` tree: an 80x25 grid of cells, a
 * cursor and a current colour. Characters are stored at the cursor, which
 * wraps to the next line at the right edge; on the last line the screen
 * scrolls up by one row.
 */
module Tty {
  import opened Common
  import opened KString
  import KPrintf

  const WIDTH: nat := 80
  const HEIGHT: nat := 25
  const CELLS: nat := 2000
  const TAB_SIZE: nat := 4

  const BACKSPACE: u8 := 0x08
  const TAB: u8 := 0x09
  const NEWLINE: u8 := 0x0A
  const SPACE: u8 := 0x20
  const MINUS: u8 := 0x2D

  /** A text-mode cell: the character and its colour attribute. */
  datatype Cell = Cell(ch: u8, color: u8)

  /** The terminal: its cells, row by row, the cursor and the current colour. */
  datatype Screen = Screen(cells: seq<Cell>, row: nat, column: nat, color: u8)

  /** The index of the cell at column `x` of row `y`. */
  function At(x: nat, y: nat): nat
  {
    y * WIDTH + x
  }

  /** The grid is whole and the cursor's row is on it. */
  predicate OnScreen(t: Screen)
  {
    |t.cells| == CELLS && t.row < HEIGHT
  }

  /** The grid is whole and the cursor is on it. */
  predicate Valid(t: Screen)
  {
    OnScreen(t) && t.column < WIDTH
  }

  function Blank(color: u8): Cell
  {
    Cell(SPACE, color)
  }

  /** A screen of blank cells in `color`. */
  function Cleared(color: u8): (cells: seq<Cell>)
    ensures |cells| == CELLS
  {
    seq(CELLS, _ => Blank(color))
  }

  /** The cells moved up by one row, with a blank last row. */
  function Scrolled(cells: seq<Cell>, color: u8): (r: seq<Cell>)
    requires |cells| == CELLS
    ensures |r| == CELLS
  {
    seq(CELLS, k requires 0 <= k < CELLS => if k < CELLS - WIDTH then cells[k + WIDTH] else Blank(color))
  }

  /** terminal_nextline: column 0 of the next row, scrolling when the cursor was on the last row. */
  function LineFeed(t: Screen): (r: Screen)
    requires OnScreen(t)
    ensures Valid(r) && r.column == 0 && r.color == t.color
    ensures t.row + 1 < HEIGHT ==> r == t.(row := t.row + 1, column := 0)
    ensures t.row + 1 == HEIGHT ==> r.row == HEIGHT - 1
  {
    if t.row + 1 == HEIGHT then Screen(Scrolled(t.cells, t.color), HEIGHT - 1, 0, t.color)
    else t.(row := t.row + 1, column := 0)
  }

  /** terminal_putchar for every character but the tab. */
  function PutPlain(t: Screen, c: u8): (r: Screen)
    requires Valid(t)
    ensures Valid(r) && r.color == t.color
  {
    if c == NEWLINE then LineFeed(t)
    else if c == BACKSPACE then
      var col := if t.column > 0 then t.column - 1 else 0;
      t.(cells := t.cells[At(col, t.row) := Blank(t.color)], column := col)
    else
      var stored := t.(cells := t.cells[At(t.column, t.row) := Cell(c, t.color)], column := t.column + 1);
      if stored.column == WIDTH then LineFeed(stored) else stored
  }

  /** `n` spaces typed one after the other. */
  function Spaces(t: Screen, n: nat): (r: Screen)
    requires Valid(t)
    ensures Valid(r) && r.color == t.color
  {
    if n == 0 then t else PutPlain(Spaces(t, n - 1), SPACE)
  }

  /** terminal_putchar: a tab is four spaces, whatever the column. */
  function Put(t: Screen, c: u8): (r: Screen)
    requires Valid(t)
    ensures Valid(r) && r.color == t.color
  {
    if c == TAB then Spaces(t, TAB_SIZE) else PutPlain(t, c)
  }

  /** The characters of `s` put one after the other. */
  function Typed(t: Screen, s: seq<u8>): (r: Screen)
    requires Valid(t)
    ensures Valid(r) && r.color == t.color
  {
    if |s| == 0 then t else Put(Typed(t, s[..|s| - 1]), s[|s| - 1])
  }

  /** Typing two texts one after the other is typing them joined. */
  lemma {:induction false} TypedAppend(t: Screen, a: seq<u8>, b: seq<u8>)
    requires Valid(t)
    ensures Typed(t, a + b) == Typed(Typed(t, a), b)
    decreases |b|
  {
    if |b| > 0 {
      assert (a + b)[..|a + b| - 1] == a + b[..|b| - 1];
      assert (a + b)[|a + b| - 1] == b[|b| - 1];
      TypedAppend(t, a, b[..|b| - 1]);
    } else {
      assert a + b == a;
    }
  }

  /**
   * A printable character is stored at the cursor in the current colour.
   * The cursor moves right; at the right edge it moves to the start of the
   * next row, and on the last row the screen scrolls, carrying the
   * character up to the row above.
   */
  lemma PrintableStored(t: Screen, c: u8)
    requires Valid(t) && c != NEWLINE && c != TAB && c != BACKSPACE
    ensures t.column + 1 < WIDTH ==>
      Put(t, c) == t.(cells := t.cells[At(t.column, t.row) := Cell(c, t.color)], column := t.column + 1)
    ensures t.column + 1 == WIDTH && t.row + 1 < HEIGHT ==>
      Put(t, c).cells[At(t.column, t.row)] == Cell(c, t.color) && Put(t, c).row == t.row + 1 && Put(t, c).column == 0
    ensures t.column + 1 == WIDTH && t.row + 1 == HEIGHT ==>
      Put(t, c).cells[At(t.column, t.row - 1)] == Cell(c, t.color) && Put(t, c).row == t.row && Put(t, c).column == 0
  {
    if t.column + 1 == WIDTH && t.row + 1 == HEIGHT {
      var stored := t.cells[At(t.column, t.row) := Cell(c, t.color)];
      assert Put(t, c).cells == Scrolled(stored, t.color);
      assert At(t.column, t.row - 1) + WIDTH == At(t.column, t.row);
    }
  }

  /** On the last row a line feed moves every row up by one and blanks the last row in the current colour. */
  lemma ScrollMovesRows(t: Screen, x: nat, y: nat)
    requires OnScreen(t) && t.row == HEIGHT - 1 && x < WIDTH && y < HEIGHT
    ensures y + 1 < HEIGHT ==> LineFeed(t).cells[At(x, y)] == t.cells[At(x, y + 1)]
    ensures y + 1 == HEIGHT ==> LineFeed(t).cells[At(x, y)] == Blank(t.color)
    ensures LineFeed(t).row == HEIGHT - 1
  {
  }

  /**
   * A backspace moves the cursor one column left, but not past column 0,
   * and blanks the cell it lands on.
   */
  lemma BackspaceBlanks(t: Screen)
    requires Valid(t)
    ensures Put(t, BACKSPACE).row == t.row
    ensures Put(t, BACKSPACE).column == (if t.column > 0 then t.column - 1 else 0)
    ensures Put(t, BACKSPACE).cells[At(Put(t, BACKSPACE).column, t.row)] == Blank(t.color)
  {
  }

  /** A tab away from the right edge writes four blanks and moves the cursor four columns. */
  lemma TabAdvances(t: Screen)
    requires Valid(t) && t.column + TAB_SIZE < WIDTH
    ensures Put(t, TAB).row == t.row && Put(t, TAB).column == t.column + TAB_SIZE
    ensures forall x :: t.column <= x < t.column + TAB_SIZE ==> Put(t, TAB).cells[At(x, t.row)] == Blank(t.color)
  {
    assert Spaces(t, 0) == t;
    var t1 := Spaces(t, 1);
    var t2 := Spaces(t, 2);
    var t3 := Spaces(t, 3);
    assert t1.column == t.column + 1 && t1.row == t.row;
    assert t2.column == t.column + 2 && t2.row == t.row;
    assert t3.column == t.column + 3 && t3.row == t.row;
  }

  /** The characters terminal_writeint prints: a '-' only for negative values in base 10, then the magnitude's digits. */
  function IntText(data: int, base: nat): seq<u8>
    requires 2 <= base <= 16
  {
    (if data < 0 && base == 10 then [MINUS] else []) + KPrintf.Numeral(if data < 0 then -data else data, base)
  }

  /** In base 10 a negative value shows its sign; in any other base only its magnitude is shown. */
  lemma IntTextSign(data: int, base: nat)
    requires 2 <= base <= 16
    ensures data < 0 && base == 10 ==> IntText(data, base) == [MINUS] + KPrintf.Numeral(-data, 10)
    ensures data < 0 && base != 10 ==> IntText(data, base) == KPrintf.Numeral(-data, base)
    ensures data >= 0 ==> IntText(data, base) == KPrintf.Numeral(data, base)
    ensures MINUS !in KPrintf.Numeral(if data < 0 then -data else data, base)
  {
    var n := KPrintf.Numeral(if data < 0 then -data else data, base);
    if data >= 0 || base != 10 {
      assert [] + n == n;
    }
    assert forall k :: 0 <= k < |n| ==> n[k] != MINUS;
  }

  class Terminal {
    var row: nat
    var column: nat
    var color: u8
    /** `terminal_buffer`: the VGA text memory. */
    var buffer: array<Cell>

    ghost function State(): Screen
      reads this, buffer
    {
      Screen(buffer[..], row, column, color)
    }

    ghost predicate Ready()
      reads this, buffer
    {
      Valid(State())
    }

    /** The terminal before terminal_initialize, over the text memory `vga`. */
    constructor (vga: array<Cell>)
      ensures buffer == vga && row == 0 && column == 0 && color == 0
    {
      buffer := vga;
      row, column, color := 0, 0, 0;
    }

    /**
     * terminal_initialize: the cursor at (0, 0), the colour set, and every
     * cell blank. `initial` is what vga_entry_color gives for light grey on
     * black.
     */
    method Initialize(vga: array<Cell>, initial: u8)
      requires vga.Length == CELLS
      modifies this, vga
      ensures buffer == vga && Ready()
      ensures State() == Screen(Cleared(initial), 0, 0, initial)
    {
      row := 0;
      column := 0;
      color := initial;
      buffer := vga;
      var y := 0;
      while y < HEIGHT
        invariant y <= HEIGHT && buffer == vga && row == 0 && column == 0 && color == initial
        invariant forall x, y' :: 0 <= x < WIDTH && 0 <= y' < y ==> buffer[At(x, y')] == Blank(initial)
      {
        var x := 0;
        while x < WIDTH
          invariant x <= WIDTH && buffer == vga && row == 0 && column == 0 && color == initial
          invariant forall x', y' :: 0 <= x' < WIDTH && 0 <= y' < y ==> buffer[At(x', y')] == Blank(initial)
          invariant forall x' :: 0 <= x' < x ==> buffer[At(x', y)] == Blank(initial)
        {
          buffer[At(x, y)] := Blank(initial);
          x := x + 1;
        }
        y := y + 1;
      }
      AllBlank(buffer, initial);
    }

    /** terminal_setcolor. */
    method SetColor(c: u8)
      modifies this
      ensures State() == old(State()).(color := c)
    {
      color := c;
    }

    /** terminal_putentryat: one cell written; the hardware cursor update is port output. */
    method PutEntryAt(c: u8, entryColor: u8, x: nat, y: nat)
      requires buffer.Length == CELLS && x < WIDTH && y < HEIGHT
      modifies buffer
      ensures buffer[..] == old(buffer[..])[At(x, y) := Cell(c, entryColor)]
    {
      buffer[At(x, y)] := Cell(c, entryColor);
    }

    /** terminal_nextline. */
    method NextLine()
      requires OnScreen(State())
      modifies this, buffer
      ensures buffer == old(buffer)
      ensures State() == LineFeed(old(State()))
    {
      column := 0;
      row := row + 1;
      if row == HEIGHT {
        row := HEIGHT - 1;
        ScrollRows();
        BlankLastRow();
        assert buffer[..] == Scrolled(old(buffer[..]), color);
      }
    }

    /** The copy loops of terminal_nextline: rows 1..24 moved up by one. */
    method ScrollRows()
      requires buffer.Length == CELLS
      modifies buffer
      ensures forall k :: 0 <= k < CELLS - WIDTH ==> buffer[k] == old(buffer[k + WIDTH])
      ensures forall k :: CELLS - WIDTH <= k < CELLS ==> buffer[k] == old(buffer[k])
    {
      var r := 1;
      while r < HEIGHT
        invariant 1 <= r <= HEIGHT
        invariant forall k :: 0 <= k < (r - 1) * WIDTH ==> buffer[k] == old(buffer[k + WIDTH])
        invariant forall k :: (r - 1) * WIDTH <= k < CELLS ==> buffer[k] == old(buffer[k])
      {
        ShiftRow(r);
        r := r + 1;
      }
    }

    /** The inner copy loop of terminal_nextline: row `r` copied onto row `r - 1`. */
    method ShiftRow(r: nat)
      requires buffer.Length == CELLS && 1 <= r < HEIGHT
      modifies buffer
      ensures forall k :: (r - 1) * WIDTH <= k < r * WIDTH ==> buffer[k] == old(buffer[k + WIDTH])
      ensures forall k :: 0 <= k < (r - 1) * WIDTH || r * WIDTH <= k < CELLS ==> buffer[k] == old(buffer[k])
    {
      var col := 0;
      while col < WIDTH
        invariant col <= WIDTH
        invariant forall k :: (r - 1) * WIDTH <= k < (r - 1) * WIDTH + col ==> buffer[k] == old(buffer[k + WIDTH])
        invariant forall k :: 0 <= k < (r - 1) * WIDTH || (r - 1) * WIDTH + col <= k < CELLS ==> buffer[k] == old(buffer[k])
      {
        buffer[WIDTH * (r - 1) + col] := buffer[WIDTH * r + col];
        col := col + 1;
      }
    }

    /** The last loop of terminal_nextline: the bottom row blanked in the current colour. */
    method BlankLastRow()
      requires buffer.Length == CELLS
      modifies buffer
      ensures forall k :: CELLS - WIDTH <= k < CELLS ==> buffer[k] == Blank(color)
      ensures forall k :: 0 <= k < CELLS - WIDTH ==> buffer[k] == old(buffer[k])
    {
      var col := 0;
      while col < WIDTH
        invariant col <= WIDTH
        invariant forall k :: CELLS - WIDTH <= k < CELLS - WIDTH + col ==> buffer[k] == Blank(color)
        invariant forall k :: 0 <= k < CELLS - WIDTH ==> buffer[k] == old(buffer[k])
      {
        PutEntryAt(SPACE, color, col, HEIGHT - 1);
        col := col + 1;
      }
    }

    /**
     * terminal_putchar: a newline feeds a line, a tab puts four spaces, a
     * backspace steps back and blanks, and anything else is stored at the
     * cursor, which then advances. The clamped `spaces` count the source
     * computes for a tab is never used.
     */
    method PutChar(c: u8)
      requires Ready()
      modifies this, buffer
      ensures Ready() && buffer == old(buffer)
      ensures State() == Put(old(State()), c)
      decreases if c == TAB then 1 else 0
    {
      if c == NEWLINE {
        NextLine();
        return;
      } else if c == TAB {
        var i := 0;
        while i < TAB_SIZE
          invariant i <= TAB_SIZE && Ready() && buffer == old(buffer)
          invariant State() == Spaces(old(State()), i)
        {
          PutChar(SPACE);
          i := i + 1;
        }
        return;
      } else if c == BACKSPACE {
        column := if column > 0 then column - 1 else 0;
        PutEntryAt(SPACE, color, column, row);
        return;
      }
      PutEntryAt(c, color, column, row);
      column := column + 1;
      if column == WIDTH {
        NextLine();
      }
    }

    /** terminal_write: the first `size` characters of `data`, one by one. */
    method Write(data: seq<u8>, size: nat)
      requires Ready() && size <= |data|
      modifies this, buffer
      ensures Ready() && buffer == old(buffer)
      ensures State() == Typed(old(State()), data[..size])
    {
      var i := 0;
      while i < size
        invariant i <= size && Ready() && buffer == old(buffer)
        invariant State() == Typed(old(State()), data[..i])
      {
        PutChar(data[i]);
        assert data[..i + 1][..i] == data[..i];
        i := i + 1;
      }
    }

    /** terminal_writestring: the characters before the NUL. */
    method WriteString(data: seq<u8>)
      requires Ready() && Terminated(data)
      modifies this, buffer
      ensures Ready() && buffer == old(buffer)
      ensures State() == Typed(old(State()), CString(data))
    {
      var len := StrLen(data);
      Write(data, len);
    }

    /**
     * terminal_writeint: every negative value is negated (so INT_MIN
     * overflows and is excluded), but the '-' is printed in base 10 only.
     * The ten digit slots must hold the magnitude's digits.
     */
    method WriteInt(data: i32, base: nat)
      requires Ready() && 2 <= base <= 16 && data != KPrintf.INT_MIN
      requires |KPrintf.Numeral(if data < 0 then -data else data, base)| <= KPrintf.DIGIT_SLOTS
      modifies this, buffer
      ensures Ready() && buffer == old(buffer)
      ensures State() == Typed(old(State()), IntText(data, base))
    {
      var isNegative := false;
      var d: int := data;
      if data < 0 {
        isNegative := true;
        d := -data;
      }
      var digits, start := KPrintf.CollectDigits(d, base);
      IntTextSign(data, base);
      ghost var text := KPrintf.Spell(digits[start..]);
      if isNegative && base == 10 {
        assert IntText(data, base) == [MINUS] + text;
        PutNegative(digits, start);
      } else {
        assert IntText(data, base) == text;
        PutDigits(digits, start);
      }
    }

    /** The '-' and the digits of a negative value in base 10. */
    method PutNegative(digits: array<int>, start: nat)
      requires Ready() && start <= digits.Length
      requires forall k :: start <= k < digits.Length ==> 0 <= digits[k] < 16
      modifies this, buffer
      ensures Ready() && buffer == old(buffer)
      ensures State() == Typed(old(State()), [MINUS] + KPrintf.Spell(digits[start..]))
    {
      PutChar(MINUS);
      assert State() == Typed(old(State()), [MINUS]) by {
        assert [MINUS][..0] == [];
      }
      ghost var signed := State();
      PutDigits(digits, start);
      TypedAppend(old(State()), [MINUS], KPrintf.Spell(digits[start..]));
    }

    /** The output loop of terminal_writeint: the characters of the digits `digits[start..]`. */
    method PutDigits(digits: array<int>, start: nat)
      requires Ready() && start <= digits.Length
      requires forall k :: start <= k < digits.Length ==> 0 <= digits[k] < 16
      modifies this, buffer
      ensures Ready() && buffer == old(buffer)
      ensures State() == Typed(old(State()), KPrintf.Spell(digits[start..]))
    {
      var i := start;
      while i < digits.Length
        invariant start <= i <= digits.Length && Ready() && buffer == old(buffer)
        invariant forall k :: start <= k < digits.Length ==> 0 <= digits[k] < 16
        invariant State() == Typed(old(State()), KPrintf.Spell(digits[start..i]))
      {
        PutChar(KPrintf.DigitChar(digits[i]));
        assert digits[start..i + 1] == digits[start..i] + [digits[i]];
        KPrintf.SpellAppend(digits[start..i], [digits[i]]);
        assert KPrintf.Spell(digits[start..i + 1])[..i - start] == KPrintf.Spell(digits[start..i]);
        i := i + 1;
      }
      assert digits[start..i] == digits[start..];
    }

    /** terminal_clear: the cursor at (0, 0) and every cell blank in the current colour. */
    method Clear()
      requires buffer.Length == CELLS
      modifies this, buffer
      ensures buffer == old(buffer) && Ready()
      ensures State() == Screen(Cleared(old(color)), 0, 0, old(color))
    {
      row := 0;
      column := 0;
      var i := 0;
      while i < WIDTH
        invariant i <= WIDTH && row == 0 && column == 0 && color == old(color) && buffer == old(buffer)
        invariant forall x, y :: 0 <= x < i && 0 <= y < HEIGHT ==> buffer[At(x, y)] == Blank(color)
      {
        var j := 0;
        while j < HEIGHT
          invariant j <= HEIGHT && row == 0 && column == 0 && color == old(color) && buffer == old(buffer)
          invariant forall x, y :: 0 <= x < i && 0 <= y < HEIGHT ==> buffer[At(x, y)] == Blank(color)
          invariant forall y :: 0 <= y < j ==> buffer[At(i, y)] == Blank(color)
        {
          PutEntryAt(SPACE, color, i, j);
          j := j + 1;
        }
        i := i + 1;
      }
      AllBlank(buffer, color);
    }
  }

  /** Blank cells at every column of every row make a cleared screen. */
  lemma AllBlank(buffer: array<Cell>, color: u8)
    requires buffer.Length == CELLS
    requires forall x, y :: 0 <= x < WIDTH && 0 <= y < HEIGHT ==> buffer[At(x, y)] == Blank(color)
    ensures buffer[..] == Cleared(color)
  {
    forall k | 0 <= k < CELLS
      ensures buffer[k] == Blank(color)
    {
      assert k == At(k % WIDTH, k / WIDTH);
    }
  }
}
