/** The bootloader's text console: a buffer of 25 rows of 80 cells, two bytes each, and a cursor.
    Its reference is a terminal that never forgets a row. */
module Console {
  import opened Bytes

  const COLUMNS: nat := 80
  const ROWS: nat := 25
  const LINE: nat := 160   // bytes of a row
  const SCREEN: nat := 4000

  // ---------------------------------------------------------------- the unbounded terminal

  /** All rows ever shown, one after the other, and the cursor; there are at least 25 rows, and
      the cursor is on one of them. */
  datatype Terminal = Terminal(cells: seq<Byte>, x: nat, y: nat)

  predicate TerminalOk(t: Terminal) {
    && t.x < COLUMNS && |t.cells| >= SCREEN && |t.cells| % LINE == 0 && LINE * (t.y + 1) <= |t.cells|
    && |t.cells| <= LINE * t.y + SCREEN
  }

  function Blanks(attribute: Byte, n: nat): (r: seq<Byte>)
    ensures |r| == 2 * n
  {
    seq(2 * n, i requires 0 <= i => if i % 2 == 0 then 0x20 else attribute)
  }

  lemma BlanksMore(attribute: Byte, m: nat, n: nat)
    ensures Blanks(attribute, m) + Blanks(attribute, n) == Blanks(attribute, m + n)
  {}

  function Cleared(attribute: Byte): Terminal {
    Terminal(Blanks(attribute, ROWS * COLUMNS), 0, 0)
  }

  /** The effect of a character on the cursor and the cell under it. */
  function Typed(t: Terminal, c: Byte, attribute: Byte): Terminal
    requires TerminalOk(t)
  {
    var at := LINE * t.y + 2 * t.x;
    if c == 0x08 then t.(x := if t.x == 0 then 0 else t.x - 1)
    else if c == 0x09 then t.(x := t.x / 8 * 8 + 8)
    else if c == 0x0D then t.(x := 0)
    else if c == 0x0A then t.(x := 0, y := t.y + 1)
    else if c >= 0x20 then Terminal(t.cells[at := c][at + 1 := attribute], t.x + 1, t.y)
    else t
  }

  /** A full row continues on the next. */
  function Wrapped(t: Terminal): Terminal {
    if t.x >= COLUMNS then t.(x := 0, y := t.y + 1) else t
  }

  /** Stepping below the last row adds a blank one. */
  function Extended(t: Terminal, attribute: Byte): Terminal {
    if LINE * t.y >= |t.cells| then t.(cells := t.cells + Blanks(attribute, COLUMNS)) else t
  }

  function Put(t: Terminal, c: Byte, attribute: Byte): (r: Terminal)
    requires TerminalOk(t)
    ensures TerminalOk(r)
  {
    Extended(Wrapped(Typed(t, c, attribute)), attribute)
  }

  function PutAll(t: Terminal, text: seq<Byte>, attribute: Byte): (r: Terminal)
    requires TerminalOk(t)
    ensures TerminalOk(r)
  {
    if text == [] then t else Put(PutAll(t, text[..|text| - 1], attribute), text[|text| - 1], attribute)
  }

  /** The rows that have left the screen. */
  function Gone(t: Terminal): nat
    requires TerminalOk(t)
  {
    (|t.cells| - SCREEN) / LINE
  }

  function LastRows(cells: seq<Byte>): (w: seq<Byte>)
    requires |cells| >= SCREEN
    ensures |w| == SCREEN
  {
    cells[|cells| - SCREEN..]
  }

  /** The last 25 rows. */
  function Window(t: Terminal): (w: seq<Byte>)
    requires TerminalOk(t)
    ensures |w| == SCREEN
  {
    LastRows(t.cells)
  }

  /** A row that has left the screen never changes again. */
  lemma {:induction false} GoneRowsStay(t: Terminal, text: seq<Byte>, attribute: Byte)
    requires TerminalOk(t)
    ensures var r := PutAll(t, text, attribute);
      && |t.cells| <= |r.cells|
      && r.cells[..|t.cells| - SCREEN] == t.cells[..|t.cells| - SCREEN]
  {
    if text != [] {
      var before := PutAll(t, text[..|text| - 1], attribute);
      GoneRowsStay(t, text[..|text| - 1], attribute);
      var gone := |before.cells| - SCREEN;
      assert gone <= LINE * before.y;
      assert Put(before, text[|text| - 1], attribute).cells[..gone] == before.cells[..gone];
      var r := Put(before, text[|text| - 1], attribute);
      assert r.cells[..|t.cells| - SCREEN] == r.cells[..gone][..|t.cells| - SCREEN];
    }
  }

  // ---------------------------------------------------------------- what a terminal shows

  /** Row i, of all there ever were. */
  function Row(t: Terminal, i: nat): seq<Byte>
    requires LINE * (i + 1) <= |t.cells|
  {
    t.cells[LINE * i..LINE * (i + 1)]
  }

  /** The cells of a row that holds a line from its left margin on and is blank otherwise. */
  function RowOf(line: seq<Byte>, attribute: Byte): (r: seq<Byte>)
    ensures |r| == 160
  {
    seq(160, j requires 0 <= j < 160 =>
          if j % 2 == 1 then attribute else if j / 2 < |line| then line[j / 2] else 0x20)
  }

  predicate Printable(line: seq<Byte>) {
    forall k | 0 <= k < |line| :: line[k] >= 0x20
  }

  predicate LinesOk(lines: seq<seq<Byte>>) {
    lines != [] && forall i | 0 <= i < |lines| :: |lines[i]| < 80 && Printable(lines[i])
  }

  function LineAt(lines: seq<seq<Byte>>, i: nat): seq<Byte> {
    if i < |lines| then lines[i] else []
  }

  /** Row i holds line i, any further row is blank, and the cursor is behind the last line. */
  ghost predicate ShowsLines(t: Terminal, lines: seq<seq<Byte>>, attribute: Byte) {
    && TerminalOk(t) && lines != [] && t.y == |lines| - 1 && t.x == |lines[t.y]|
    && (forall i: nat | 160 * (i + 1) <= |t.cells| :: Row(t, i) == RowOf(LineAt(lines, i), attribute))
  }

  /** The lines, separated by newlines. */
  function Joined(lines: seq<seq<Byte>>): seq<Byte>
    requires lines != []
  {
    if |lines| == 1 then lines[0]
    else Joined(lines[..|lines| - 1]) + [0x0A] + lines[|lines| - 1]
  }

  lemma ClearedShows(attribute: Byte)
    ensures ShowsLines(Cleared(attribute), [[]], attribute)
  {
    var t := Cleared(attribute);
    forall i: nat | 160 * (i + 1) <= |t.cells| ensures Row(t, i) == RowOf(LineAt([[]], i), attribute) {
      assert LineAt([[]], i) == [];
    }
  }

  /** A printable character extends the last line; with the eightieth the next line begins. */
  lemma CharacterShows(t: Terminal, lines: seq<seq<Byte>>, c: Byte, attribute: Byte)
    requires ShowsLines(t, lines, attribute) && c >= 0x20
    ensures var last := |lines| - 1;
      var longer := lines[last := lines[last] + [c]];
      ShowsLines(Put(t, c, attribute), if |longer[last]| < 80 then longer else longer + [[]], attribute)
  {
    var last := |lines| - 1;
    var longer := lines[last := lines[last] + [c]];
    var typed := Typed(t, c, attribute);
    forall i: nat | 160 * (i + 1) <= |t.cells| ensures Row(typed, i) == RowOf(LineAt(longer, i), attribute) {
      CharacterRow(t, lines, c, attribute, i);
    }
    if |longer[last]| == 80 {
      NextRow(typed.(x := 0, y := t.y + 1), longer, attribute);
    }
  }

  lemma CharacterRow(t: Terminal, lines: seq<seq<Byte>>, c: Byte, attribute: Byte, i: nat)
    requires ShowsLines(t, lines, attribute) && c >= 0x20 && 160 * (i + 1) <= |t.cells|
    ensures var last := |lines| - 1;
      |Typed(t, c, attribute).cells| == |t.cells|
      && Row(Typed(t, c, attribute), i) == RowOf(LineAt(lines[last := lines[last] + [c]], i), attribute)
  {
    var at := 160 * t.y + 2 * t.x;
    var typed := Typed(t, c, attribute);
    assert Row(t, i) == RowOf(LineAt(lines, i), attribute);
    forall j | 0 <= j < 160
      ensures Row(typed, i)[j] == RowOf(LineAt(lines[t.y := lines[t.y] + [c]], i), attribute)[j]
    {
      assert Row(typed, i)[j] == typed.cells[160 * i + j] && Row(t, i)[j] == t.cells[160 * i + j];
    }
  }

  /** Going to the next row, with a blank one added below the last. */
  lemma NextRow(t: Terminal, lines: seq<seq<Byte>>, attribute: Byte)
    requires |t.cells| >= SCREEN && |t.cells| % LINE == 0 && |t.cells| <= LINE * t.y + SCREEN && t.x == 0
    requires lines != [] && t.y == |lines| && LINE * t.y <= |t.cells|
    requires forall i: nat | 160 * (i + 1) <= |t.cells| :: Row(t, i) == RowOf(LineAt(lines, i), attribute)
    ensures ShowsLines(Extended(t, attribute), lines + [[]], attribute)
  {
    var r := Extended(t, attribute);
    forall i: nat | 160 * (i + 1) <= |r.cells| ensures Row(r, i) == RowOf(LineAt(lines + [[]], i), attribute) {
      assert LineAt(lines + [[]], i) == LineAt(lines, i);
      if 160 * (i + 1) <= |t.cells| {
        assert Row(r, i) == Row(t, i);
      } else {
        assert Row(r, i) == Blanks(attribute, COLUMNS) == RowOf([], attribute);
      }
    }
  }

  lemma NewlineShows(t: Terminal, lines: seq<seq<Byte>>, attribute: Byte)
    requires ShowsLines(t, lines, attribute)
    ensures ShowsLines(Put(t, 0x0A, attribute), lines + [[]], attribute)
  {
    NextRow(t.(x := 0, y := t.y + 1), lines, attribute);
  }

  /** Lines of printable characters, each shorter than a row, put on an empty terminal. */
  lemma {:induction false} LinesShow(lines: seq<seq<Byte>>, attribute: Byte)
    requires LinesOk(lines)
    ensures ShowsLines(PutAll(Cleared(attribute), Joined(lines), attribute), lines, attribute)
  {
    var n := |lines| - 1;
    if n == 0 {
      ClearedShows(attribute);
      assert PutAll(Cleared(attribute), [], attribute) == Cleared(attribute) && [] + lines[0] == lines[0];
      LineShows([], [], lines[0], attribute);
      assert [lines[0]] == lines;
    } else {
      var before := Joined(lines[..n]);
      LinesShow(lines[..n], attribute);
      var t := PutAll(Cleared(attribute), before, attribute);
      NewlineShows(t, lines[..n], attribute);
      assert (before + [0x0A])[..|before|] == before;
      LineShows(before + [0x0A], lines[..n], lines[n], attribute);
      assert lines[..n] + [lines[n]] == lines;
    }
  }

  lemma {:induction false} LineShows(before: seq<Byte>, lines: seq<seq<Byte>>, line: seq<Byte>, attribute: Byte)
    requires |line| < 80 && Printable(line)
    requires ShowsLines(PutAll(Cleared(attribute), before, attribute), lines + [[]], attribute)
    ensures ShowsLines(PutAll(Cleared(attribute), before + line, attribute), lines + [line], attribute)
  {
    if line == [] {
      assert before + line == before;
    } else {
      var n := |line| - 1;
      var shorter := line[..n];
      LineShows(before, lines, shorter, attribute);
      var t := PutAll(Cleared(attribute), before + shorter, attribute);
      CharacterShows(t, lines + [shorter], line[n], attribute);
      assert (before + line)[..|before + line| - 1] == before + shorter && shorter + [line[n]] == line;
      assert (lines + [shorter])[|lines| := line] == lines + [line];
    }
  }

  /** Anywhere, a printable character writes its cell and moves one to the right, or to the next row. */
  lemma CharacterMoves(t: Terminal, c: Byte, attribute: Byte)
    requires TerminalOk(t) && c >= 0x20
    ensures var r := Put(t, c, attribute);
      var at := 160 * t.y + 2 * t.x;
      && |t.cells| <= |r.cells| && r.cells[at] == c && r.cells[at + 1] == attribute
      && (forall j | 0 <= j < |t.cells| && j != at && j != at + 1 :: r.cells[j] == t.cells[j])
      && (if t.x == 79 then r.x == 0 && r.y == t.y + 1 else r.x == t.x + 1 && r.y == t.y)
  {}

  /** A newline moves to the left margin of the next row, and writes nothing on the rows there are. */
  lemma NewlineMoves(t: Terminal, attribute: Byte)
    requires TerminalOk(t)
    ensures var r := Put(t, 0x0A, attribute); r.cells[..|t.cells|] == t.cells && r.y == t.y + 1 && r.x == 0
  {}

  /** A tab moves to the least multiple of 8 above the column, on the next row if that is 80, and
      writes nothing. */
  lemma TabMoves(t: Terminal, attribute: Byte)
    requires TerminalOk(t)
    ensures var r := Put(t, 0x09, attribute);
      var column := if r.y == t.y then r.x else 80;
      && (r.y == t.y || (r.y == t.y + 1 && r.x == 0))
      && column % 8 == 0 && t.x < column <= t.x + 8
      && r.cells[..|t.cells|] == t.cells
  {}

  /** A backspace moves one to the left, not past the margin, and erases nothing. */
  lemma BackspaceMoves(t: Terminal, attribute: Byte)
    requires TerminalOk(t)
    ensures var r := Put(t, 0x08, attribute);
      r.cells == t.cells && r.y == t.y && (if t.x == 0 then r.x == 0 else r.x + 1 == t.x)
  {}

  /** A return moves to the left margin of the same row, and writes nothing. */
  lemma ReturnMoves(t: Terminal, attribute: Byte)
    requires TerminalOk(t)
    ensures var r := Put(t, 0x0D, attribute); r.cells == t.cells && r.y == t.y && r.x == 0
  {}

  /** The other control characters do nothing. */
  lemma ControlsIgnored(t: Terminal, c: Byte, attribute: Byte)
    requires TerminalOk(t) && c < 0x20 && c !in {0x08, 0x09, 0x0A, 0x0D}
    ensures Put(t, c, attribute) == t
  {}

  // ---------------------------------------------------------------- the console

  class TextScreen {
    const text: array<Byte>
    var attribute: Byte
    var x: int
    var y: int

    ghost predicate Valid()
      reads this
    {
      text.Length == SCREEN && 0 <= x < COLUMNS && 0 <= y < ROWS
    }

    /** The screen shows the last rows of a terminal. */
    ghost predicate Shows(t: Terminal)
      reads this, text
    {
      Valid() && TerminalOk(t) && text[..] == Window(t) && x == t.x && y + Gone(t) == t.y
    }

    constructor (text: array<Byte>)
      requires text.Length == SCREEN
      ensures Valid() && this.text == text && attribute == 0x0F
    {
      this.text := text;
      attribute, x, y := 0x0F, 0, 0;
    }

    /** The byte loop, in ascending order: right for overlapping blocks that move down. */
    method Memcpy(dest: nat, src: nat, count: nat)
      requires dest <= src && src + count <= text.Length
      modifies text
      ensures text[..] == old(text[..])[..dest] + old(text[..])[src..src + count] + old(text[..])[dest + count..]
    {
      var i := 0;
      while i < count
        invariant i <= count
        invariant forall k :: 0 <= k < dest ==> text[k] == old(text[k])
        invariant forall k :: dest <= k < dest + i ==> text[k] == old(text[k + src - dest])
        invariant forall k :: dest + i <= k < text.Length ==> text[k] == old(text[k])
      {
        text[dest + i] := text[src + i];
        i := i + 1;
      }
      Moved(old(text[..]), text[..], dest, src, count);
    }

    method StoreCell(at: nat, c: Byte)
      requires 2 * at + 1 < text.Length
      modifies text
      ensures text[..] == old(text[..])[2 * at := c][2 * at + 1 := attribute]
    {
      text[2 * at] := c;
      text[2 * at + 1] := attribute;
    }

    method Memsetw(dest: nat, count: nat)
      requires 2 * (dest + count) <= text.Length
      modifies text
      ensures text[..] == old(text[..])[..2 * dest] + Blanks(attribute, count) + old(text[..])[2 * (dest + count)..]
    {
      hide Blanked;
      var i := 0;
      BlankedNone(text[..], 2 * dest, attribute);
      while i < count
        invariant i <= count && Blanked(old(text[..]), text[..], 2 * dest, i, attribute)
      {
        BlankStored(old(text[..]), text[..], 2 * dest, i, attribute);
        StoreCell(dest + i, 0x20);
        i := i + 1;
      }
      BlankedAll(old(text[..]), text[..], 2 * dest, count, attribute);
    }

    /** Any number of rows below the last, up to a whole screen, scrolls the text that far, but only
        one blank row enters: right for one row, which is all `putch` needs. */
    method Scroll()
      requires text.Length == SCREEN && y < 2 * ROWS
      modifies this`y, text
      ensures y == if old(y) >= ROWS then ROWS - 1 else old(y)
      ensures old(y) < ROWS ==> text[..] == old(text[..])
      ensures old(y) >= ROWS ==>
        var moved := LINE * (old(y) - ROWS + 1);
        text[..] == old(text[..])[moved..] + Blanks(attribute, COLUMNS) + old(text[..])[SCREEN - moved + LINE..]
      ensures old(y) == ROWS ==> text[..] == old(text[..])[LINE..] + Blanks(attribute, COLUMNS)
    {
      if y >= ROWS {
        var temp := y - ROWS + 1;
        Memcpy(0, temp * LINE, (ROWS - temp) * LINE);
        ghost var moved := text[..];
        Memsetw((ROWS - temp) * COLUMNS, COLUMNS);
        y := ROWS - 1;
        Scrolled(old(text[..]), moved, text[..], temp * LINE, Blanks(attribute, COLUMNS));
      }
    }

    method Cls()
      requires Valid()
      modifies this`x, this`y, text
      ensures Shows(Cleared(attribute))
    {
      var i := 0;
      while i < ROWS
        invariant i <= ROWS && text.Length == SCREEN
        invariant text[..LINE * i] == Blanks(attribute, COLUMNS * i)
      {
        Memsetw(i * COLUMNS, COLUMNS);
        BlanksMore(attribute, COLUMNS * i, COLUMNS);
        i := i + 1;
      }
      assert text[..LINE * i] == text[..];
      x, y := 0, 0;
    }

    /** The first half of `putch`. */
    method Type(c: Byte, ghost t: Terminal)
      requires Shows(t)
      modifies this`x, this`y, text
      ensures var typed := Typed(t, c, attribute);
        && text[..] == LastRows(typed.cells) && x == typed.x && y + Gone(t) == typed.y
    {
      WindowTyped(t, c, attribute);
      if c == 0x08 {
        if x != 0 {
          x := x - 1;
        }
      } else if c == 0x09 {
        x := (x + 8) / 8 * 8;
      } else if c == 0x0D {
        x := 0;
      } else if c == 0x0A {
        x := 0;
        y := y + 1;
      } else if c >= 0x20 {
        StoreCell(y * COLUMNS + x, c);
        x := x + 1;
      }
    }

    method Putch(c: Byte, ghost t: Terminal)
      requires Shows(t)
      modifies this`x, this`y, text
      ensures Shows(Put(t, c, attribute))
    {
      ghost var wrapped := Wrapped(Typed(t, c, attribute));
      WrappedFits(t, c, attribute);
      WindowExtended(wrapped, attribute);
      PutWindow(t, c, attribute);
      Type(c, t);
      hide Typed, LastRows, Window, Extended, Put;
      if x >= COLUMNS {
        x := 0;
        y := y + 1;
      }
      Scroll();
    }

    /** After any text the screen is the window of the unbounded terminal. */
    method Puts(message: seq<Byte>, ghost t: Terminal)
      requires Shows(t)
      modifies this`x, this`y, text
      ensures Shows(PutAll(t, message, attribute))
    {
      var i := 0;
      while i < |message|
        invariant i <= |message|
        invariant Shows(PutAll(t, message[..i], attribute))
      {
        assert message[..i + 1][..i] == message[..i];
        Putch(message[i], PutAll(t, message[..i], attribute));
        i := i + 1;
      }
      assert message[..i] == message;
    }
  }

  /** i cells from byte a on are blank, the other bytes are as they were. */
  predicate Blanked(was: seq<Byte>, now: seq<Byte>, a: nat, i: nat, attribute: Byte) {
    a + 2 * i <= |was| && now == was[..a] + Blanks(attribute, i) + was[a + 2 * i..]
  }

  lemma BlankedNone(was: seq<Byte>, a: nat, attribute: Byte)
    requires a <= |was|
    ensures Blanked(was, was, a, 0, attribute)
  {}

  lemma BlankedAll(was: seq<Byte>, now: seq<Byte>, a: nat, i: nat, attribute: Byte)
    requires Blanked(was, now, a, i, attribute)
    ensures a + 2 * i <= |was| && now == was[..a] + Blanks(attribute, i) + was[a + 2 * i..]
  {}

  lemma BlankStored(was: seq<Byte>, now: seq<Byte>, a: nat, i: nat, attribute: Byte)
    requires a + 2 * i + 2 <= |was| && Blanked(was, now, a, i, attribute)
    ensures |now| == |was| && Blanked(was, now[a + 2 * i := 0x20][a + 2 * i + 1 := attribute], a, i + 1, attribute)
  {
    assert Blanks(attribute, i + 1) == Blanks(attribute, i) + [0x20, attribute];
  }

  lemma Scrolled(was: seq<Byte>, moved: seq<Byte>, now: seq<Byte>, d: nat, blank: seq<Byte>)
    requires |was| == SCREEN && |blank| == LINE <= d <= SCREEN
    requires moved == was[..0] + was[d..SCREEN] + was[SCREEN - d..]
    requires now == moved[..SCREEN - d] + blank + moved[SCREEN - d + LINE..]
    ensures now == was[d..] + blank + was[SCREEN - d + LINE..]
    ensures d == LINE ==> now == was[LINE..] + blank
  {
    assert moved[..SCREEN - d] == was[d..];
    assert moved[SCREEN - d + LINE..] == was[SCREEN - d + LINE..];
  }

  lemma Moved(was: seq<Byte>, now: seq<Byte>, dest: nat, src: nat, count: nat)
    requires |now| == |was| && dest <= src && src + count <= |was|
    requires forall k :: 0 <= k < dest ==> now[k] == was[k]
    requires forall k :: dest <= k < dest + count ==> now[k] == was[k + src - dest]
    requires forall k :: dest + count <= k < |was| ==> now[k] == was[k]
    ensures now == was[..dest] + was[src..src + count] + was[dest + count..]
  {}

  /** The window of the typed cells is the window with the same cell stored. */
  lemma WindowTyped(t: Terminal, c: Byte, attribute: Byte)
    requires TerminalOk(t)
    ensures var at := LINE * (t.y - Gone(t)) + 2 * t.x;
      && 0 <= at < SCREEN - 1
      && LastRows(Typed(t, c, attribute).cells) ==
         if c >= 0x20 then Window(t)[at := c][at + 1 := attribute] else Window(t)
  {
    assert LINE * Gone(t) == |t.cells| - SCREEN;
  }

  lemma WrappedFits(t: Terminal, c: Byte, attribute: Byte)
    requires TerminalOk(t)
    ensures var w := Wrapped(Typed(t, c, attribute));
      && w.x < COLUMNS && |w.cells| == |t.cells| && w.y - Gone(t) <= ROWS && w.y >= Gone(t)
      && (LINE * w.y >= |w.cells| <==> w.y - Gone(t) == ROWS)
  {}

  lemma PutWindow(t: Terminal, c: Byte, attribute: Byte)
    requires TerminalOk(t)
    ensures var w, r := Wrapped(Typed(t, c, attribute)), Put(t, c, attribute);
      && Window(r) == LastRows(Extended(w, attribute).cells) && r.x == w.x && r.y == w.y
      && Gone(r) == Gone(t) + if LINE * w.y >= |w.cells| then 1 else 0
  {
    hide LastRows;
  }

  /** Adding a row drops the first row of the window. */
  lemma WindowExtended(t: Terminal, attribute: Byte)
    requires |t.cells| >= SCREEN && |t.cells| % LINE == 0
    ensures |Extended(t, attribute).cells| >= SCREEN
    ensures LastRows(Extended(t, attribute).cells) == (
      if LINE * t.y >= |t.cells| then LastRows(t.cells)[LINE..] + Blanks(attribute, COLUMNS) else LastRows(t.cells))
  {
  }
}
