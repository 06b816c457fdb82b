/** What each escape of rp/src/term.c does to the 40 by 24 screen, cell by cell. */
module TerminalLaws {
  import opened Terminal

  lemma TwoCharEscape(s: Grid, c: char)
    requires InBounds(s) && c != 'Y'
    ensures Printed(s, [ESC, c]) == Obey(s, [ESC, c])
  {
    assert [ESC, c][1..] == [c] && [c][1..] == [];
    assert [ESC] + [c] == [ESC, c];
    assert FeedAll(Printer(s, [ESC]), [c]) == Printer(Obey(s, [ESC, c]), []);
    assert FeedAll(Printer(s, []), [ESC, c]) == FeedAll(Printer(s, [ESC]), [c]);
  }

  function Min(a: int, b: int): int {
    if a < b then a else b
  }

  function Max(a: int, b: int): int {
    if a < b then b else a
  }

  /** Up, down, right and left stop at the edges; home is the upper left corner. */
  lemma CursorMoves(s: Grid)
    requires InBounds(s)
    ensures Printed(s, [ESC, 'A']) == s.(y := Max(s.y - 1, 0))
    ensures Printed(s, [ESC, 'B']) == s.(y := Min(s.y + 1, 23))
    ensures Printed(s, [ESC, 'C']) == s.(x := Min(s.x + 1, 39))
    ensures Printed(s, [ESC, 'D']) == s.(x := Max(s.x - 1, 0))
    ensures Printed(s, [ESC, 'H']) == s.(x := 0, y := 0)
  {
    TwoCharEscape(s, 'A');
    TwoCharEscape(s, 'B');
    TwoCharEscape(s, 'C');
    TwoCharEscape(s, 'D');
    TwoCharEscape(s, 'H');
  }

  /** Clear leaves 960 blank cells and the cursor at home. */
  lemma ClearEmpties(s: Grid)
    requires InBounds(s)
    ensures var r := Printed(s, [ESC, 'E']);
            |r.cells| == 960 && (forall i :: 0 <= i < 960 ==> r.cells[i] == NUL) && r.x == 0 && r.y == 0
  {
    TwoCharEscape(s, 'E');
  }

  lemma RowAndColumn(r: int, c: int)
    requires 0 <= r && 0 <= c < 40
    ensures (r * 40 + c) / 40 == r && (r * 40 + c) % 40 == c
  {
  }

  /** K blanks the cursor's row from the cursor on, and nothing else. */
  lemma EraseLine(s: Grid, r: int, c: int)
    requires InBounds(s) && 0 <= r < 24 && 0 <= c < 40
    ensures var t := Printed(s, [ESC, 'K']);
            && t.x == s.x && t.y == s.y
            && Cell(t.cells, r, c) == if r == s.y && c >= s.x then NUL else Cell(s.cells, r, c)
  {
    TwoCharEscape(s, 'K');
    RowAndColumn(r, c);
  }

  /** J blanks the cells below and to the right of the cursor, its own row and column included. */
  lemma EraseCorner(s: Grid, r: int, c: int)
    requires InBounds(s) && 0 <= r < 24 && 0 <= c < 40
    ensures var t := Printed(s, [ESC, 'J']);
            && t.x == s.x && t.y == s.y
            && Cell(t.cells, r, c) == if r >= s.y && c >= s.x then NUL else Cell(s.cells, r, c)
  {
    TwoCharEscape(s, 'J');
    RowAndColumn(r, c);
  }

  /** Every cell from the cursor to the end of the screen is blank. */
  ghost predicate BlankToEnd(t: Grid)
    requires InBounds(t)
  {
    forall r, c :: 0 <= r < 24 && 0 <= c < 40 && (r > t.y || (r == t.y && c >= t.x)) ==> Cell(t.cells, r, c) == NUL
  }

  /** That is less than its comment promises, which is the rest of the screen from the cursor on:
      whatever the screen holds it is blanked to its end if and only if the cursor is in the first
      column or in the last row. */
  lemma EraseToEndIff(x: int, y: int)
    requires 0 <= x < 40 && 0 <= y < 24
    ensures (forall cells: seq<char> :: |cells| == 960 ==> BlankToEnd(Printed(Grid(cells, x, y), [ESC, 'J'])))
            <==> x == 0 || y == 23
  {
    if x == 0 || y == 23 {
      forall cells: seq<char> | |cells| == 960
        ensures BlankToEnd(Printed(Grid(cells, x, y), [ESC, 'J']))
      {
        AllBlanked(Grid(cells, x, y));
      }
    } else {
      var s := Grid(seq(960, i => 'A'), x, y);
      EraseCorner(s, y + 1, 0);
      assert Cell(Printed(s, [ESC, 'J']).cells, y + 1, 0) == 'A';
      assert !BlankToEnd(Printed(s, [ESC, 'J']));
    }
  }

  lemma AllBlanked(s: Grid)
    requires InBounds(s) && (s.x == 0 || s.y == 23)
    ensures BlankToEnd(Printed(s, [ESC, 'J']))
  {
    var t := Printed(s, [ESC, 'J']);
    EraseCorner(s, 0, 0);
    forall r, c | 0 <= r < 24 && 0 <= c < 40 && (r > t.y || (r == t.y && c >= t.x))
      ensures Cell(t.cells, r, c) == NUL
    {
      EraseCorner(s, r, c);
    }
  }

  /** An escape the terminal does not know changes nothing. */
  lemma UnknownEscape(s: Grid, c: char)
    requires InBounds(s) && c !in ['A', 'B', 'C', 'D', 'E', 'H', 'J', 'K', 'Y']
    ensures Printed(s, [ESC, c]) == s
  {
    TwoCharEscape(s, c);
  }

  /** A direct address is the row and the column above a space; one off the screen is ignored. */
  lemma AnyAddress(s: Grid, row: char, col: char)
    requires InBounds(s)
    ensures Printed(s, [ESC, 'Y', row, col])
            == if 32 <= row as int < 56 && 32 <= col as int < 72
               then s.(x := col as int - 32, y := row as int - 32) else s
  {
    var q := [ESC, 'Y', row, col];
    assert q == [ESC] + (['Y'] + ([row] + ([col] + [])));
    FeedFirst(Printer(s, []), ESC, ['Y'] + ([row] + ([col] + [])));
    FeedFirst(Printer(s, [ESC]), 'Y', [row] + ([col] + []));
    FeedFirst(Printer(s, [ESC, 'Y']), row, [col] + []);
    FeedFirst(Printer(s, [ESC, 'Y', row]), col, []);
    assert [ESC] + ['Y'] == [ESC, 'Y'] && [ESC, 'Y'] + [row] == [ESC, 'Y', row] && [ESC, 'Y', row] + [col] == q;
  }

  /** A printable character goes to the cursor's cell and to no other; the cursor goes to the
      next cell, row after row. In the last cell the whole screen moves up by a row instead. */
  lemma OneCharacter(s: Grid, ch: char, r: int, c: int)
    requires InBounds(s) && ch != ESC && ch != NUL && ch != '\n' && ch != '\r' && 0 <= r < 24 && 0 <= c < 40
    ensures var t := Printed(s, [ch]);
            if s.y * 40 + s.x < 959 then
              && t.y * 40 + t.x == s.y * 40 + s.x + 1
              && Cell(t.cells, r, c) == if r == s.y && c == s.x then ch else Cell(s.cells, r, c)
            else
              && t.x == 0 && t.y == 23
              && Cell(t.cells, r, c) == if r == 23 then NUL
                                        else if r == 22 && c == 39 then ch else Cell(s.cells, r + 1, c)
  {
    assert [ch][1..] == [];
    assert FeedAll(Printer(s, []), [ch]) == Printer(Put(s, ch), []);
  }

  /** A line end of either kind goes to the start of the next row; in the last row the whole
      screen moves up instead. */
  lemma LineEnd(s: Grid, ch: char, r: int, c: int)
    requires InBounds(s) && ch in ['\n', '\r'] && 0 <= r < 24 && 0 <= c < 40
    ensures var t := Printed(s, [ch]);
            && t.x == 0 && t.y == Min(s.y + 1, 23)
            && Cell(t.cells, r, c) == if s.y < 23 then Cell(s.cells, r, c)
                                      else if r == 23 then NUL else Cell(s.cells, r + 1, c)
  {
    assert [ch][1..] == [];
    assert FeedAll(Printer(s, []), [ch]) == Printer(NextRow(s), []);
  }

  /** An escape that the end of the string cuts off is shown as text. */
  lemma CutOffIsText(s: Grid, row: char)
    requires InBounds(s)
    ensures Printed(s, [ESC]) == Rendered(s, [ESC])
    ensures Printed(s, [ESC, 'Y']) == Rendered(s, [ESC, 'Y'])
    ensures Printed(s, [ESC, 'Y', row]) == Rendered(s, [ESC, 'Y', row])
  {
    FeedFirst(Printer(s, []), ESC, []);
    FeedFirst(Printer(s, []), ESC, ['Y']);
    FeedFirst(Printer(s, [ESC]), 'Y', []);
    FeedFirst(Printer(s, []), ESC, ['Y', row]);
    FeedFirst(Printer(s, [ESC]), 'Y', [row]);
    FeedFirst(Printer(s, [ESC, 'Y']), row, []);
    assert [ESC] + [] == [ESC] && [ESC] + ['Y'] == [ESC, 'Y'] && ['Y'] + [] == ['Y'];
    assert [ESC] + ['Y', row] == [ESC, 'Y', row] && ['Y'] + [row] == ['Y', row] && [row] + [] == [row];
    assert [ESC, 'Y'] + [row] == [ESC, 'Y', row];
  }
}
