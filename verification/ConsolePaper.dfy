/** The screen as one block of cells, and the endless sheet of paper it is a window on. */
module ConsolePaper {

  type Code = c: nat | c < 256

  datatype Cell = Cell(glyph: Code, attr: bv8)

  type Row = seq<Cell>

  const DEFAULT_ATTRIBUTE: bv8 := 7
  const TAB_DISTANCE: nat := 4

  const BACKSPACE: Code := 0x08
  const TAB: Code := 0x09
  const LINE_FEED: Code := 0x0A
  const CARRIAGE_RETURN: Code := 0x0D

  const BLANK: Cell := Cell(0, DEFAULT_ATTRIBUTE)

  function Blanks(n: nat): seq<Cell> { seq(n, _ => BLANK) }

  function NextTabStop(x: nat): nat {
    x / TAB_DISTANCE * TAB_DISTANCE + if x % TAB_DISTANCE != 0 then TAB_DISTANCE else 0
  }

  // ----- The screen -----

  /** The cells of the screen, row by row, and the cursor. */
  datatype Picture = Picture(cells: seq<Cell>, x: nat, y: nat)

  ghost predicate InScreen(p: Picture, w: nat, h: nat) {
    w >= 1 && h >= 1 && |p.cells| == h * w && p.x < w && p.y < h
  }

  lemma MulStep(n: nat, w: nat)
    ensures (n + 1) * w == n * w + w
  {
  }

  lemma MulGrows(a: nat, b: nat, w: nat)
    requires a <= b
    ensures a * w <= b * w
  {
  }

  /** The index of column x in row y. */
  function At(x: nat, y: nat, w: nat): nat { x + y * w }

  /** A position inside the screen lies in its memory. */
  lemma CellInside(x: nat, y: nat, w: nat, h: nat)
    requires x < w && y < h
    ensures At(x, y, w) < h * w && x + y * w < h * w && y * w + w <= h * w
  {
    MulStep(y, w);
    MulGrows(y + 1, h, w);
  }

  /** All rows one up, a blank one below. */
  function ScrolledUp(m: seq<Cell>, n: nat): (r: seq<Cell>)
    requires n <= |m|
    ensures |r| == |m|
  {
    m[n..] + Blanks(n)
  }

  function ScrolledDown(m: seq<Cell>, n: nat): (r: seq<Cell>)
    requires n <= |m|
    ensures |r| == |m|
  {
    Blanks(n) + m[..|m| - n]
  }

  /** Cells a up to b blank. */
  function Erased(m: seq<Cell>, a: nat, b: nat): (r: seq<Cell>)
    requires b <= |m|
    ensures |r| == |m|
  {
    if a >= b then m else m[..a] + Blanks(b - a) + m[b..]
  }

  /** Erasing up to but not including the last cell blanks the screen exactly when that cell is
      blank already. */
  lemma ErasedAllButLast(m: seq<Cell>)
    requires m != []
    ensures Erased(m, 0, |m| - 1) == Blanks(|m|) <==> m[|m| - 1] == BLANK
  {
    assert Erased(m, 0, |m| - 1)[|m| - 1] == m[|m| - 1];
    if m[|m| - 1] == BLANK {
      assert Erased(m, 0, |m| - 1) == Blanks(|m|);
    }
  }

  /** The cursor moved to the start of the next row, scrolling at the bottom. */
  function NewLine(p: Picture, w: nat, h: nat): (r: Picture)
    requires InScreen(p, w, h)
    ensures InScreen(r, w, h)
  {
    CellInside(p.x, p.y, w, h);
    if p.y + 1 >= h then Picture(ScrolledUp(p.cells, w), 0, p.y) else Picture(p.cells, 0, p.y + 1)
  }

  function Advanced(p: Picture, nx: nat, w: nat, h: nat): (r: Picture)
    requires InScreen(p, w, h)
    ensures InScreen(r, w, h)
  {
    if nx >= w then NewLine(p, w, h) else p.(x := nx)
  }

  /** A cell written at the cursor. */
  function Inked(p: Picture, c: Cell, w: nat, h: nat): (r: Picture)
    requires InScreen(p, w, h)
    ensures InScreen(r, w, h)
  {
    CellInside(p.x, p.y, w, h);
    p.(cells := p.cells[At(p.x, p.y, w) := c])
  }

  /** What a byte does that starts no control sequence. */
  function Typed(p: Picture, code: Code, attr: bv8, w: nat, h: nat): (r: Picture)
    requires InScreen(p, w, h)
    ensures InScreen(r, w, h)
  {
    if code == BACKSPACE then p.(x := if p.x > 0 then p.x - 1 else 0)
    else if code == CARRIAGE_RETURN then p.(x := 0)
    else if code == LINE_FEED then NewLine(p, w, h)
    else if code == TAB then Advanced(p, NextTabStop(p.x) + 1, w, h)
    else Advanced(Inked(p, Cell(code, attr), w, h), p.x + 1, w, h)
  }

  /** The cursor moved on to a column of this or the next row. */
  function Settled(p: Picture, nx: nat, ny: nat, w: nat, h: nat): Picture
    requires InScreen(p, w, h) && nx < w && ny <= h
  {
    CellInside(p.x, p.y, w, h);
    if ny >= h then Picture(ScrolledUp(p.cells, w), nx, h - 1) else Picture(p.cells, nx, ny)
  }

  // ----- The paper -----

  /** An endless sheet, written row by row; the pen is in the last row. */
  datatype Sheet = Sheet(rows: seq<Row>, x: nat)

  ghost predicate IsSheet(s: Sheet, w: nat) {
    s.rows != [] && s.x < w && forall r | r in s.rows :: |r| == w
  }

  function Wrapped(s: Sheet, nx: nat, w: nat): Sheet {
    if nx >= w then Sheet(s.rows + [Blanks(w)], 0) else s.(x := nx)
  }

  function InkedRow(s: Sheet, c: Cell, w: nat): (r: Sheet)
    requires IsSheet(s, w)
    ensures IsSheet(r, w)
  {
    var last := |s.rows| - 1;
    s.(rows := s.rows[last := s.rows[last][s.x := c]])
  }

  function Penned(s: Sheet, code: Code, attr: bv8, w: nat): (r: Sheet)
    requires IsSheet(s, w)
    ensures IsSheet(r, w)
  {
    if code == BACKSPACE then s.(x := if s.x > 0 then s.x - 1 else 0)
    else if code == CARRIAGE_RETURN then s.(x := 0)
    else if code == LINE_FEED then Sheet(s.rows + [Blanks(w)], 0)
    else if code == TAB then Wrapped(s, NextTabStop(s.x) + 1, w)
    else Wrapped(InkedRow(s, Cell(code, attr), w), s.x + 1, w)
  }

  // ----- The window -----

  function BlankRows(n: nat, w: nat): (r: seq<Row>)
    ensures |r| == n && forall k | 0 <= k < n :: r[k] == Blanks(w)
  {
    seq(n, _ => Blanks(w))
  }

  /** The last h rows; blank rows below when there are fewer. */
  function Window(rows: seq<Row>, w: nat, h: nat): (r: seq<Row>)
    ensures |r| == h
  {
    if |rows| <= h then rows + BlankRows(h - |rows|, w) else rows[|rows| - h..]
  }

  function Flat(rows: seq<Row>): seq<Cell> {
    if rows == [] then [] else Flat(rows[..|rows| - 1]) + rows[|rows| - 1]
  }

  ghost predicate Rectangle(rows: seq<Row>, w: nat) { forall k | 0 <= k < |rows| :: |rows[k]| == w }

  /** The screen shows the end of the sheet, the cursor where the pen is. */
  ghost predicate Shows(p: Picture, s: Sheet, w: nat, h: nat) {
    && InScreen(p, w, h) && IsSheet(s, w)
    && p.cells == Flat(Window(s.rows, w, h)) && p.x == s.x
    && p.y == (if |s.rows| <= h then |s.rows| else h) - 1
  }

  lemma {:induction false} FlatLength(rows: seq<Row>, w: nat)
    requires Rectangle(rows, w)
    ensures |Flat(rows)| == |rows| * w
  {
    if rows != [] {
      FlatLength(rows[..|rows| - 1], w);
      MulStep(|rows| - 1, w);
    }
  }

  lemma {:induction false} FlatFirst(rows: seq<Row>)
    requires rows != []
    ensures Flat(rows) == rows[0] + Flat(rows[1..])
    decreases |rows|
  {
    if |rows| > 1 {
      var init, last := rows[..|rows| - 1], rows[|rows| - 1];
      assert Flat(rows) == Flat(init) + last;
      FlatFirst(init);
      assert rows[1..][..|rows| - 2] == init[1..];
      assert Flat(rows[1..]) == Flat(init[1..]) + last;
      hide Flat;
      assert (rows[0] + Flat(init[1..])) + last == rows[0] + (Flat(init[1..]) + last);
    } else {
      assert rows[..0] == [] && rows[1..] == [];
    }
  }

  /** Moving the rows up by one and adding a blank one is scrolling the cells. */
  lemma FlatScrolled(rows: seq<Row>, w: nat)
    requires Rectangle(rows, w) && rows != []
    ensures w <= |Flat(rows)| && ScrolledUp(Flat(rows), w) == Flat(rows[1..] + [Blanks(w)])
  {
    FlatFirst(rows);
    var more := rows[1..] + [Blanks(w)];
    assert more[..|more| - 1] == rows[1..];
    assert Flat(rows)[w..] == Flat(rows[1..]);
  }

  /** Writing one cell of row y is writing it in the block. */
  lemma {:induction false} FlatCell(rows: seq<Row>, w: nat, x: nat, y: nat, c: Cell)
    requires Rectangle(rows, w) && x < w && y < |rows|
    ensures x + y * w < |Flat(rows)|
    ensures Flat(rows)[x + y * w := c] == Flat(rows[y := rows[y][x := c]])
    decreases |rows|
  {
    hide *;
    FlatParts(rows, w, x, y);
    var init, last, r := rows[..|rows| - 1], rows[|rows| - 1], rows[y][x := c];
    if y < |rows| - 1 {
      FlatCell(init, w, x, y, c);
      ChangeInit(rows, y, r);
      ChangeLeft(Flat(init), last, x + y * w, c);
    } else {
      ChangeLast(rows, r);
      ChangeRight(Flat(init), last, x, c);
    }
  }

  /** The block of all rows is that of all but the last, and the last; the last starts at its
      index times the width. */
  lemma FlatParts(rows: seq<Row>, w: nat, x: nat, y: nat)
    requires Rectangle(rows, w) && x < w && y < |rows|
    ensures Rectangle(rows[..|rows| - 1], w) && |rows[y]| == w && |rows[|rows| - 1]| == w
    ensures Flat(rows) == Flat(rows[..|rows| - 1]) + rows[|rows| - 1]
    ensures y < |rows| - 1 ==> x + y * w < |Flat(rows[..|rows| - 1])|
    ensures y == |rows| - 1 ==> |Flat(rows[..|rows| - 1])| == y * w
  {
    FlatLength(rows[..|rows| - 1], w);
    if y < |rows| - 1 {
      CellInside(x, y, w, |rows| - 1);
    }
  }

  lemma ChangeInit(rows: seq<Row>, y: nat, r: Row)
    requires y < |rows| - 1
    ensures Flat(rows[y := r]) == Flat(rows[..|rows| - 1][y := r]) + rows[|rows| - 1]
  {
    assert rows[y := r][..|rows| - 1] == rows[..|rows| - 1][y := r];
  }

  lemma ChangeLast(rows: seq<Row>, r: Row)
    requires rows != []
    ensures Flat(rows[|rows| - 1 := r]) == Flat(rows[..|rows| - 1]) + r
  {
    assert rows[|rows| - 1 := r][..|rows| - 1] == rows[..|rows| - 1];
  }

  lemma ChangeLeft<T>(a: seq<T>, b: seq<T>, i: nat, c: T)
    requires i < |a|
    ensures (a + b)[i := c] == a[i := c] + b
  {
  }

  lemma ChangeRight<T>(a: seq<T>, b: seq<T>, i: nat, c: T)
    requires i < |b|
    ensures (a + b)[i + |a| := c] == a + b[i := c]
  {
  }

  lemma WindowRectangle(rows: seq<Row>, w: nat, h: nat)
    requires forall r | r in rows :: |r| == w
    ensures Rectangle(Window(rows, w, h), w)
  {
  }

  /** A new line on the sheet is a new line on the screen. */
  lemma NewLineShows(p: Picture, s: Sheet, w: nat, h: nat)
    requires Shows(p, s, w, h)
    ensures Shows(NewLine(p, w, h), Sheet(s.rows + [Blanks(w)], 0), w, h)
  {
    hide Flat, Blanks, ScrolledUp, BlankRows;
    var rows, more := s.rows, s.rows + [Blanks(w)];
    BlankLength(w);
    if |rows| < h {
      assert Window(more, w, h) == Window(rows, w, h);
    } else {
      var window := Window(rows, w, h);
      WindowRectangle(rows, w, h);
      FlatScrolled(window, w);
      assert Window(more, w, h) == window[1..] + [Blanks(w)];
    }
  }

  lemma BlankLength(w: nat)
    ensures |Blanks(w)| == w
  {
  }

  lemma WindowCell(rows: seq<Row>, w: nat, h: nat, x: nat, y: nat, c: Cell)
    requires rows != [] && (forall r | r in rows :: |r| == w) && h >= 1 && x < w
    requires y == (if |rows| <= h then |rows| else h) - 1
    ensures var last, window := |rows| - 1, Window(rows, w, h);
            && y < |window| && |window[y]| == w && |rows[last]| == w
            && Window(rows[last := rows[last][x := c]], w, h) == window[y := window[y][x := c]]
  {
    hide BlankRows;
    var last := |rows| - 1;
    assert rows[last] in rows;
    var r := rows[last][x := c];
    if |rows| <= h {
      ChangeLeft(rows, BlankRows(h - |rows|, w), last, r);
    } else {
      ChangeTail(rows, |rows| - h, last, r);
    }
  }

  lemma ChangeTail<T>(a: seq<T>, k: nat, i: nat, c: T)
    requires k <= i < |a|
    ensures a[i := c][k..] == a[k..][i - k := c]
  {
  }

  /** A glyph on the sheet is a glyph on the screen. */
  lemma GlyphShows(p: Picture, s: Sheet, c: Cell, w: nat, h: nat)
    requires Shows(p, s, w, h)
    ensures Shows(Inked(p, c, w, h), InkedRow(s, c, w), w, h)
  {
    hide Flat, Window, Rectangle;
    WindowRectangle(s.rows, w, h);
    WindowCell(s.rows, w, h, p.x, p.y, c);
    FlatCell(Window(s.rows, w, h), w, p.x, p.y, c);
  }

  lemma AdvancedShows(p: Picture, s: Sheet, nx: nat, w: nat, h: nat)
    requires Shows(p, s, w, h)
    ensures Shows(Advanced(p, nx, w, h), Wrapped(s, nx, w), w, h)
  {
    NewLineShows(p, s, w, h);
    hide Flat, Window, Blanks, NewLine;
  }

  lemma ShowsFacts(p: Picture, s: Sheet, w: nat, h: nat)
    requires Shows(p, s, w, h)
    ensures InScreen(p, w, h) && IsSheet(s, w) && p.x == s.x
    ensures forall x: nat | x < w :: Shows(p.(x := x), s.(x := x), w, h)
  {
  }

  /** One byte of text: the screen goes on showing the end of the sheet. */
  lemma TypedShows(p: Picture, s: Sheet, code: Code, attr: bv8, w: nat, h: nat)
    requires Shows(p, s, w, h)
    ensures Shows(Typed(p, code, attr, w, h), Penned(s, code, attr, w), w, h)
  {
    hide Shows, InScreen, IsSheet, Inked, InkedRow, Advanced, Wrapped, NewLine, NextTabStop, Blanks;
    ShowsFacts(p, s, w, h);
    InkSameX(p, s, Cell(code, attr), w, h);
    if code == LINE_FEED {
      NewLineShows(p, s, w, h);
    } else if code == TAB {
      AdvancedShows(p, s, NextTabStop(p.x) + 1, w, h);
    } else if code != BACKSPACE && code != CARRIAGE_RETURN {
      GlyphShows(p, s, Cell(code, attr), w, h);
      AdvancedShows(Inked(p, Cell(code, attr), w, h), InkedRow(s, Cell(code, attr), w), p.x + 1, w, h);
    }
  }

  lemma InkSameX(p: Picture, s: Sheet, c: Cell, w: nat, h: nat)
    requires InScreen(p, w, h) && IsSheet(s, w)
    ensures w >= 1 && p.x < w && s.x < w && Inked(p, c, w, h).x == p.x && InkedRow(s, c, w).x == s.x
  {
  }

  // ----- Runs -----

  function TypedAll(p: Picture, codes: seq<Code>, attr: bv8, w: nat, h: nat): (r: Picture)
    requires InScreen(p, w, h)
    ensures InScreen(r, w, h)
    decreases |codes|
  {
    if codes == [] then p else Typed(TypedAll(p, codes[..|codes| - 1], attr, w, h), codes[|codes| - 1], attr, w, h)
  }

  function PennedAll(s: Sheet, codes: seq<Code>, attr: bv8, w: nat): (r: Sheet)
    requires IsSheet(s, w)
    ensures IsSheet(r, w)
    decreases |codes|
  {
    if codes == [] then s else Penned(PennedAll(s, codes[..|codes| - 1], attr, w), codes[|codes| - 1], attr, w)
  }

  /** The blank screen and the blank sheet. */
  lemma {:induction false} BlankShows(w: nat, h: nat)
    requires w >= 1 && h >= 1
    ensures InScreen(Picture(Blanks(h * w), 0, 0), w, h) && IsSheet(Sheet([Blanks(w)], 0), w)
    ensures Shows(Picture(Blanks(h * w), 0, 0), Sheet([Blanks(w)], 0), w, h)
  {
    MulGrows(1, h, w);
    assert Window([Blanks(w)], w, h) == BlankRows(h, w);
    FlatBlank(h, w);
  }

  lemma {:induction false} FlatBlank(n: nat, w: nat)
    ensures Flat(BlankRows(n, w)) == Blanks(n * w)
  {
    if n > 0 {
      FlatBlank(n - 1, w);
      MulStep(n - 1, w);
      assert BlankRows(n, w)[..n - 1] == BlankRows(n - 1, w);
      assert Blanks((n - 1) * w) + Blanks(w) == Blanks(n * w);
    } else {
      assert BlankRows(0, w) == [];
    }
  }

  /** From a blank screen, any text leaves the last rows of the sheet wrapped at the width. */
  lemma {:induction false} PaperRun(codes: seq<Code>, attr: bv8, w: nat, h: nat)
    requires w >= 1 && h >= 1
    ensures InScreen(Picture(Blanks(h * w), 0, 0), w, h) && IsSheet(Sheet([Blanks(w)], 0), w)
    ensures Shows(TypedAll(Picture(Blanks(h * w), 0, 0), codes, attr, w, h),
                  PennedAll(Sheet([Blanks(w)], 0), codes, attr, w), w, h)
    decreases |codes|
  {
    BlankShows(w, h);
    if codes != [] {
      var init := codes[..|codes| - 1];
      PaperRun(init, attr, w, h);
      TypedShows(TypedAll(Picture(Blanks(h * w), 0, 0), init, attr, w, h),
                 PennedAll(Sheet([Blanks(w)], 0), init, attr, w), codes[|codes| - 1], attr, w, h);
    }
  }
}
