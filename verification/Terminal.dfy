/** The scrolling 40 by 24 text screen of rp/src/term.c, with its VT52 escapes. */
module Terminal {
  const COLUMNS: nat := 40
  const ROWS: nat := 24
  const CELLS: nat := 960
  const ESC: char := 27 as char
  const NUL: char := 0 as char
  const POS: int := 0x20
  const ESC_BUFFER: nat := 16

  // ---------------------------------------------------------------- what each character does

  /** The text screen: row after row of cells, and the cursor. */
  datatype Grid = Grid(cells: seq<char>, x: int, y: int)

  predicate InBounds(s: Grid) {
    |s.cells| == CELLS && 0 <= s.x < COLUMNS && 0 <= s.y < ROWS
  }

  function Blank(n: nat): (r: seq<char>)
    ensures |r| == n
    ensures forall i :: 0 <= i < n ==> r[i] == NUL
  {
    seq(n, i => NUL)
  }

  const CLEARED: Grid := Grid(Blank(CELLS), 0, 0)

  /** Down a row, scrolling at the bottom. */
  function NextRow(s: Grid): (r: Grid)
    requires |s.cells| == CELLS && 0 <= s.y < ROWS
    ensures InBounds(r)
  {
    if s.y + 1 < ROWS then s.(x := 0, y := s.y + 1)
    else Grid(s.cells[COLUMNS..] + Blank(COLUMNS), 0, ROWS - 1)
  }

  function Put(s: Grid, c: char): (r: Grid)
    requires InBounds(s)
  {
    var t := s.(cells := s.cells[s.y * COLUMNS + s.x := c]);
    if s.x + 1 < COLUMNS then t.(x := s.x + 1) else NextRow(t)
  }

  predicate EndsLine(c: char) {
    c == '\n' || c == '\r'
  }

  function Render(s: Grid, c: char): (r: Grid)
    requires InBounds(s)
  {
    if EndsLine(c) then NextRow(s) else if c == NUL then s else Put(s, c)
  }

  function Rendered(s: Grid, text: seq<char>): (r: Grid)
    requires InBounds(s)
    ensures InBounds(r)
    decreases |text|
  {
    if text == [] then s else Rendered(Render(s, text[0]), text[1..])
  }

  /** Cells at or right of column x in the rows y0 to y1 are blanked. */
  function Erased(cells: seq<char>, x: int, y0: int, y1: int): (r: seq<char>)
    ensures |r| == |cells|
  {
    seq(|cells|, i requires 0 <= i < |cells| =>
      if y0 <= i / COLUMNS < y1 && i % COLUMNS >= x then NUL else cells[i])
  }

  /** What a complete escape sequence does to the text screen. */
  function Obey(s: Grid, q: seq<char>): (r: Grid)
    requires InBounds(s)
    ensures InBounds(r)
  {
    if |q| < 2 then s
    else match q[1]
      case 'A' => if s.y > 0 then s.(y := s.y - 1) else s
      case 'B' => if s.y < ROWS - 1 then s.(y := s.y + 1) else s
      case 'C' => if s.x < COLUMNS - 1 then s.(x := s.x + 1) else s
      case 'D' => if s.x > 0 then s.(x := s.x - 1) else s
      case 'E' => CLEARED
      case 'H' => s.(x := 0, y := 0)
      case 'J' => s.(cells := Erased(s.cells, s.x, s.y, ROWS))
      case 'K' => s.(cells := Erased(s.cells, s.x, s.y, s.y + 1))
      case 'Y' =>
        if |q| == 4 && 0 <= q[2] as int - POS < ROWS && 0 <= q[3] as int - POS < COLUMNS
        then s.(x := q[3] as int - POS, y := q[2] as int - POS)
        else s
      case _ => s
  }

  /** Where a string is: on plain text, or inside an escape sequence held so far. */
  datatype Printer = Printer(screen: Grid, held: seq<char>)

  predicate Sound(p: Printer) {
    && InBounds(p.screen) && |p.held| <= 3
    && (p.held != [] ==> p.held[0] == ESC)
    && (|p.held| >= 2 ==> p.held[1] == 'Y')
  }

  function Feed(p: Printer, c: char): (r: Printer)
    requires Sound(p)
    ensures Sound(r)
  {
    var q := p.held + [c];
    if p.held == [] then
      if c == ESC then Printer(p.screen, [ESC]) else Printer(Render(p.screen, c), [])
    else if (|q| == 2 && c != 'Y') || |q| == 4 then Printer(Obey(p.screen, q), [])
    else Printer(p.screen, q)
  }

  function FeedAll(p: Printer, text: seq<char>): (r: Printer)
    requires Sound(p)
    ensures Sound(r)
    decreases |text|
  {
    if text == [] then p else FeedAll(Feed(p, text[0]), text[1..])
  }

  /** A whole string: a sequence it cuts off is shown as text. */
  function Printed(s: Grid, text: seq<char>): (r: Grid)
    requires InBounds(s)
    ensures InBounds(r)
  {
    var p := FeedAll(Printer(s, []), text);
    Rendered(p.screen, p.held)
  }

  lemma {:induction false} FeedAllAppend(p: Printer, a: seq<char>, b: seq<char>)
    requires Sound(p)
    ensures FeedAll(p, a + b) == FeedAll(FeedAll(p, a), b)
    decreases |a|
  {
    if a == [] {
      assert a + b == b;
    } else {
      assert (a + b)[1..] == a[1..] + b;
      FeedAllAppend(Feed(p, a[0]), a[1..], b);
    }
  }

  /** Printing in two calls is printing in one, unless the cut falls inside an escape sequence. */
  lemma PrintedAppend(s: Grid, a: seq<char>, b: seq<char>)
    requires InBounds(s)
    requires FeedAll(Printer(s, []), a).held == []
    ensures Printed(s, a + b) == Printed(Printed(s, a), b)
  {
    FeedAllAppend(Printer(s, []), a, b);
    assert FeedAll(Printer(s, []), a) == Printer(FeedAll(Printer(s, []), a).screen, []);
  }

  /** The escape that addresses the cursor directly. */
  function AddressOf(row: int, col: int): (q: seq<char>)
    requires 0 <= row < ROWS && 0 <= col < COLUMNS
    ensures |q| == 4
  {
    [ESC, 'Y', (row + POS) as char, (col + POS) as char]
  }

  lemma FeedFirst(p: Printer, c: char, rest: seq<char>)
    requires Sound(p)
    ensures FeedAll(p, [c] + rest) == FeedAll(Feed(p, c), rest)
  {
    assert ([c] + rest)[1..] == rest;
  }

  lemma AddressMoves(s: Grid, row: int, col: int)
    requires InBounds(s) && 0 <= row < ROWS && 0 <= col < COLUMNS
    ensures FeedAll(Printer(s, []), AddressOf(row, col)) == Printer(s.(x := col, y := row), [])
  {
    var q := AddressOf(row, col);
    assert q == [ESC] + (['Y'] + ([q[2]] + ([q[3]] + [])));
    FeedFirst(Printer(s, []), ESC, ['Y'] + ([q[2]] + ([q[3]] + [])));
    FeedFirst(Printer(s, [ESC]), 'Y', [q[2]] + ([q[3]] + []));
    FeedFirst(Printer(s, [ESC, 'Y']), q[2], [q[3]] + []);
    FeedFirst(Printer(s, [ESC, 'Y', q[2]]), q[3], []);
    assert [ESC] + ['Y'] == [ESC, 'Y'] && [ESC, 'Y'] + [q[2]] == [ESC, 'Y', q[2]] && [ESC, 'Y', q[2]] + [q[3]] == q;
  }

  /** Any cell but the last can be written by address: that cell changes, no other does, and the
      cursor moves on; the character in the last cell scrolls up with its row. */
  lemma AddressedCell(s: Grid, row: int, col: int, c: char)
    requires InBounds(s) && 0 <= row < ROWS && 0 <= col < COLUMNS
    requires c != ESC && c != NUL && !EndsLine(c)
    ensures var r := Printed(s, AddressOf(row, col) + [c]);
            var cells := s.cells[row * COLUMNS + col := c];
            if row * COLUMNS + col < CELLS - 1
            then r.cells == cells && r.y * COLUMNS + r.x == row * COLUMNS + col + 1
            else r.cells == cells[COLUMNS..] + Blank(COLUMNS) && r.x == 0 && r.y == ROWS - 1
  {
    AddressMoves(s, row, col);
    FeedAllAppend(Printer(s, []), AddressOf(row, col), [c]);
    FeedFirst(Printer(s.(x := col, y := row), []), c, []);
    assert [c] + [] == [c];
  }

  // ---------------------------------------------------------------- the screen in place

  class Term {
    const screen: array<char>
    var cursorX: int
    var cursorY: int

    ghost predicate Valid()
      reads this, screen
    {
      InBounds(View())
    }

    ghost function View(): Grid
      reads this, screen
    {
      Grid(screen[..], cursorX, cursorY)
    }

    constructor ()
      ensures Valid() && fresh(screen) && View() == CLEARED
    {
      screen := new char[CELLS](i => NUL);
      cursorX, cursorY := 0, 0;
      new;
      assert screen[..] == Blank(CELLS);
    }

    method ClearScreen()
      requires Valid()
      modifies this, screen
      ensures View() == CLEARED
    {
      forall i | 0 <= i < CELLS {
        screen[i] := NUL;
      }
      cursorX, cursorY := 0, 0;
      assert screen[..] == Blank(CELLS);
    }

    method ScrollUp()
      requires screen.Length == CELLS
      modifies screen
      ensures screen[..] == old(screen[..])[COLUMNS..] + Blank(COLUMNS)
    {
      forall i | 0 <= i < CELLS - COLUMNS {
        screen[i] := screen[i + COLUMNS];
      }
      forall i | CELLS - COLUMNS <= i < CELLS {
        screen[i] := NUL;
      }
      assert screen[..] == old(screen[..])[COLUMNS..] + Blank(COLUMNS);
    }

    method Down()
      requires screen.Length == CELLS && 0 <= cursorY < ROWS
      modifies this, screen
      ensures Valid() && View() == NextRow(old(View()))
    {
      cursorX := 0;
      cursorY := cursorY + 1;
      if cursorY >= ROWS {
        ScrollUp();
        cursorY := ROWS - 1;
      }
    }

    method PutChar(c: char)
      requires Valid()
      modifies this, screen
      ensures Valid() && View() == Put(old(View()), c)
    {
      screen[cursorY * COLUMNS + cursorX] := c;
      assert screen[..] == old(screen[..])[cursorY * COLUMNS + cursorX := c];
      cursorX := cursorX + 1;
      if cursorX >= COLUMNS {
        Down();
      }
    }

    method RenderChar(c: char)
      requires Valid()
      modifies this, screen
      ensures Valid() && View() == Render(old(View()), c)
    {
      if c == '\n' || c == '\r' {
        Down();
      } else if c != NUL {
        PutChar(c);
      }
    }

    /** Blanks the cells from column x in the rows y0 to y1. */
    method Erase(x: int, y0: int, y1: int)
      requires screen.Length == CELLS && 0 <= x <= COLUMNS && 0 <= y0 <= y1 <= ROWS
      modifies screen
      ensures screen[..] == Erased(old(screen[..]), x, y0, y1)
    {
      var posY := y0;
      while posY < y1
        invariant y0 <= posY <= y1
        invariant screen[..] == Erased(old(screen[..]), x, y0, posY)
      {
        var posX := x;
        ghost var was := screen[..];
        while posX < COLUMNS
          invariant x <= posX <= COLUMNS
          invariant forall i :: 0 <= i < CELLS ==>
            screen[i] == if posY * COLUMNS + x <= i < posY * COLUMNS + posX then NUL else was[i]
        {
          screen[posY * COLUMNS + posX] := NUL;
          posX := posX + 1;
        }
        posY := posY + 1;
        assert screen[..] == Erased(old(screen[..]), x, y0, posY);
      }
    }

    /** A complete escape sequence. */
    method Process(q: seq<char>)
      requires Valid() && |q| >= 2
      modifies this, screen
      ensures Valid() && View() == Obey(old(View()), q)
    {
      match q[1] {
        case 'A' => if cursorY > 0 { cursorY := cursorY - 1; }
        case 'B' => if cursorY < ROWS - 1 { cursorY := cursorY + 1; }
        case 'C' => if cursorX < COLUMNS - 1 { cursorX := cursorX + 1; }
        case 'D' => if cursorX > 0 { cursorX := cursorX - 1; }
        case 'E' =>
          cursorX, cursorY := 0, 0;
          Erase(0, 0, ROWS);
          assert screen[..] == Blank(CELLS);
        case 'H' => cursorX, cursorY := 0, 0;
        case 'J' => Erase(cursorX, cursorY, ROWS);
        case 'K' => Erase(cursorX, cursorY, cursorY + 1);
        case 'Y' =>
          if |q| == 4 {
            var row, col := q[2] as int - POS, q[3] as int - POS;
            if 0 <= row < ROWS && 0 <= col < COLUMNS {
              cursorY, cursorX := row, col;
            }
          }
        case _ =>
      }
    }

    /** Shows held characters as text. */
    method Flush(held: seq<char>)
      requires Valid()
      modifies this, screen
      ensures Valid() && View() == Rendered(old(View()), held)
    {
      var i := 0;
      while i < |held|
        invariant 0 <= i <= |held| && Valid()
        invariant Rendered(View(), held[i..]) == Rendered(old(View()), held)
      {
        RenderChar(held[i]);
        i := i + 1;
      }
    }

    /** The string up to its terminator. The escape buffer never holds more than four characters. */
    method PrintString(text: seq<char>)
      requires Valid() && NUL !in text
      modifies this, screen
      ensures Valid() && View() == Printed(old(View()), text)
    {
      var held: seq<char> := [];
      var i := 0;
      while i < |text|
        invariant 0 <= i <= |text| && Sound(Printer(View(), held))
        invariant FeedAll(Printer(View(), held), text[i..]) == FeedAll(Printer(old(View()), []), text)
      {
        held := FeedChar(held, text[i]);
        i := i + 1;
      }
      if held != [] {
        Flush(held);
      }
    }

    method FeedChar(held: seq<char>, c: char) returns (left: seq<char>)
      requires Sound(Printer(View(), held))
      modifies this, screen
      ensures Printer(View(), left) == Feed(old(Printer(View(), held)), c)
    {
      left := held;
      if held == [] {
        if c == ESC {
          left := [ESC];
        } else {
          RenderChar(c);
        }
      } else {
        left := held + [c];
        if |left| == 2 {
          if left[1] != 'Y' {
            Process(left);
            left := [];
          }
        } else if left[1] == 'Y' && |left| == 4 {
          Process(left);
          left := [];
        }
        assert |left| < ESC_BUFFER;
      }
    }
  }

  // ---------------------------------------------------------------- the page behind the window

  /** How much of the text is on its first line. */
  function LineEnd(text: seq<char>): (n: nat)
    ensures n <= |text|
    ensures forall i :: 0 <= i < n ==> !EndsLine(text[i])
    ensures n < |text| ==> EndsLine(text[n])
    decreases |text|
  {
    if text == [] || EndsLine(text[0]) then 0 else 1 + LineEnd(text[1..])
  }

  /** A line cut into rows of the screen's width; a full last row is followed by an empty one. */
  function Wrapped(line: seq<char>): (rows: seq<seq<char>>)
    ensures rows != []
    decreases |line|
  {
    if |line| < COLUMNS then [line] else [line[..COLUMNS]] + Wrapped(line[COLUMNS..])
  }

  /** The unbounded page a text makes. */
  function Page(text: seq<char>): (rows: seq<seq<char>>)
    ensures rows != []
    decreases |text|
  {
    var n := LineEnd(text);
    if n == |text| then Wrapped(text) else Wrapped(text[..n]) + Page(text[n + 1..])
  }

  /** The cell of a page at a row and column; blank where the page has nothing. */
  function PageCell(rows: seq<seq<char>>, r: int, c: int): char {
    if 0 <= r < |rows| && 0 <= c < |rows[r]| then rows[r][c] else NUL
  }

  function Cell(cells: seq<char>, r: int, c: int): char
    requires |cells| == CELLS && 0 <= r < ROWS && 0 <= c < COLUMNS
  {
    cells[r * COLUMNS + c]
  }

  /** The first row of the page that is still in view. */
  function Top(rows: seq<seq<char>>): int {
    if |rows| <= ROWS then 0 else |rows| - ROWS
  }

  ghost predicate InView(cells: seq<char>, rows: seq<seq<char>>) {
    && |cells| == CELLS
    && forall r, c :: 0 <= r < ROWS && 0 <= c < COLUMNS ==> Cell(cells, r, c) == PageCell(rows, Top(rows) + r, c)
  }

  /** The screen shows the last rows of the page and the cursor stands at its end. */
  ghost predicate Shows(s: Grid, rows: seq<seq<char>>)
    requires rows != []
  {
    && InView(s.cells, rows)
    && s.y == |rows| - 1 - Top(rows) && s.x == |rows[|rows| - 1]| < COLUMNS
  }

  /** A new row on the page moves the screen as the terminal does. */
  lemma NewRowShows(s: Grid, rows: seq<seq<char>>)
    requires rows != [] && InView(s.cells, rows) && s.y == |rows| - 1 - Top(rows)
    ensures Shows(NextRow(s), rows + [[]])
  {
    var t, page := NextRow(s), rows + [[]];
    forall r, c | 0 <= r < ROWS && 0 <= c < COLUMNS
      ensures Cell(t.cells, r, c) == PageCell(page, Top(page) + r, c)
    {
      if s.y + 1 < ROWS {
        assert Cell(t.cells, r, c) == Cell(s.cells, r, c);
      } else if r + 1 < ROWS {
        assert Cell(t.cells, r, c) == Cell(s.cells, r + 1, c);
      }
    }
  }

  /** The page after one more character. */
  function Extend(rows: seq<seq<char>>, c: char): (r: seq<seq<char>>)
    requires rows != []
    ensures r != []
  {
    var last := |rows| - 1;
    if EndsLine(c) then rows + [[]]
    else if |rows[last]| + 1 < COLUMNS then rows[last := rows[last] + [c]]
    else rows[last := rows[last] + [c]] + [[]]
  }

  lemma RenderShows(s: Grid, rows: seq<seq<char>>, c: char)
    requires rows != [] && Shows(s, rows) && c != NUL
    ensures Shows(Render(s, c), Extend(rows, c))
  {
    if EndsLine(c) {
      NewRowShows(s, rows);
    } else {
      var last := |rows| - 1;
      var page := rows[last := rows[last] + [c]];
      var t := s.(cells := s.cells[s.y * COLUMNS + s.x := c]);
      forall r, k | 0 <= r < ROWS && 0 <= k < COLUMNS
        ensures Cell(t.cells, r, k) == PageCell(page, Top(page) + r, k)
      {
        assert Cell(s.cells, r, k) == PageCell(rows, Top(rows) + r, k);
      }
      if s.x + 1 == COLUMNS {
        NewRowShows(t, page);
      }
    }
  }

  /** Continuing a page character by character. */
  function Extended(rows: seq<seq<char>>, text: seq<char>): (r: seq<seq<char>>)
    requires rows != []
    ensures r != []
    decreases |text|
  {
    if text == [] then rows else Extended(Extend(rows, text[0]), text[1..])
  }

  predicate Plain(text: seq<char>) {
    ESC !in text && NUL !in text
  }

  lemma {:induction false} PlainShows(s: Grid, rows: seq<seq<char>>, text: seq<char>)
    requires rows != [] && Shows(s, rows) && InBounds(s) && Plain(text)
    ensures Shows(FeedAll(Printer(s, []), text).screen, Extended(rows, text))
    ensures FeedAll(Printer(s, []), text).held == []
    decreases |text|
  {
    if text != [] {
      RenderShows(s, rows, text[0]);
      PlainShows(Render(s, text[0]), Extend(rows, text[0]), text[1..]);
    }
  }

  lemma WrappedFull(row: seq<char>, tail: seq<char>)
    requires |row| == COLUMNS
    ensures Wrapped(row + tail) == [row] + Wrapped(tail)
  {
    assert (row + tail)[..COLUMNS] == row && (row + tail)[COLUMNS..] == tail;
  }

  /** A full row without line ends starts the page of what follows it. */
  lemma FullRowFirst(row: seq<char>, rest: seq<char>)
    requires |row| == COLUMNS && forall i :: 0 <= i < |row| ==> !EndsLine(row[i])
    ensures Page(row + rest) == [row] + Page(rest)
  {
    var n, all := LineEnd(rest), row + rest;
    LineEndAfter(row, rest);
    WrappedFull(row, rest[..n]);
    assert all[..COLUMNS + n] == row + rest[..n];
    if n == |rest| {
      assert rest[..n] == rest;
    } else {
      assert all[COLUMNS + n + 1..] == rest[n + 1..];
      assert ([row] + Wrapped(rest[..n])) + Page(rest[n + 1..]) == [row] + (Wrapped(rest[..n]) + Page(rest[n + 1..]));
    }
  }

  lemma {:induction false} LineEndAfter(a: seq<char>, b: seq<char>)
    requires forall i :: 0 <= i < |a| ==> !EndsLine(a[i])
    ensures LineEnd(a + b) == |a| + LineEnd(b)
    decreases |a|
  {
    if a == [] {
      assert a + b == b;
    } else {
      assert (a + b)[1..] == a[1..] + b;
      LineEndAfter(a[1..], b);
    }
  }

  predicate Row(row: seq<char>) {
    |row| < COLUMNS && forall i :: 0 <= i < |row| ==> !EndsLine(row[i])
  }

  /** A short row is a page, and is the first row when a line end follows it. */
  lemma ShortRowFirst(row: seq<char>, text: seq<char>)
    requires Row(row) && (text != [] ==> EndsLine(text[0]))
    ensures Page(row + text) == if text == [] then [row] else [row] + Page(text[1..])
  {
    LineEndAfter(row, text);
    assert (row + text)[..|row|] == row;
    if text == [] {
      assert row + text == row;
    } else {
      assert (row + text)[|row| + 1..] == text[1..];
    }
  }

  lemma Assoc(a: seq<seq<char>>, row: seq<char>, b: seq<seq<char>>)
    ensures (a + [row]) + b == a + ([row] + b)
  {
  }

  lemma Replaced(a: seq<seq<char>>, row: seq<char>, to: seq<char>)
    ensures (a + [row])[|a| := to] == a + [to]
  {
  }

  /** Extending a page whose last row is short is paging that row with the text. */
  lemma {:induction false} ExtendedIsPage(done: seq<seq<char>>, row: seq<char>, text: seq<char>)
    requires Row(row)
    ensures Extended(done + [row], text) == done + Page(row + text)
    decreases |text|, 0
  {
    if text == [] || EndsLine(text[0]) {
      ShortRowFirst(row, text);
      if text != [] {
        NextRowIsPage(done, row, text[1..]);
      }
    } else {
      var longer := row + [text[0]];
      Replaced(done, row, longer);
      assert row + text == longer + text[1..];
      if |longer| < COLUMNS {
        ExtendedIsPage(done, longer, text[1..]);
      } else {
        FullRowFirst(longer, text[1..]);
        NextRowIsPage(done, longer, text[1..]);
      }
    }
  }

  lemma {:induction false} NextRowIsPage(done: seq<seq<char>>, row: seq<char>, rest: seq<char>)
    ensures Extended((done + [row]) + [[]], rest) == done + ([row] + Page(rest))
    decreases |rest|, 1
  {
    ExtendedIsPage(done + [row], [], rest);
    assert [] + rest == rest;
    Assoc(done, row, Page(rest));
  }

  /**
   * Printing plain text on a cleared screen shows the last rows of the text's wrapped page,
   * blank below, with the cursor at its end.
   */
  lemma WindowOnPage(text: seq<char>)
    requires Plain(text)
    ensures Shows(Printed(CLEARED, text), Page(text))
  {
    var none: seq<seq<char>> := [];
    PlainShows(CLEARED, [[]], text);
    ExtendedIsPage(none, [], text);
    assert none + [[]] == [[]];
    assert [] + text == text;
    assert none + Page(text) == Page(text);
  }
}
