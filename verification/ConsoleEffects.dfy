/** What single bytes and sequences of output do to the cell and the cursor, in plain numbers. */
module ConsoleEffects {
  import opened Order
  import opened ConsolePaper
  import opened ConsoleCodes
  import opened ConsoleMachine

  // ----- Single bytes -----

  /** Backspace, carriage return and line feed: a step back in the row, its first column, and the
      first column of the next row, for which the rows move up at the bottom. */
  lemma ControlBytes(p: Picture, attr: bv8, w: nat, h: nat)
    requires InScreen(p, w, h)
    ensures Typed(p, 0x08, attr, w, h) == p.(x := if p.x == 0 then 0 else p.x - 1)
    ensures Typed(p, 0x0D, attr, w, h) == p.(x := 0)
    ensures var r := Typed(p, 0x0A, attr, w, h);
            && r.x == 0 && r == NewLine(p, w, h)
            && (p.y + 1 < h ==> r.y == p.y + 1 && r.cells == p.cells)
            && (p.y + 1 == h ==> r.y == p.y && RowsUp(p, r, 1, w, h))
  {
    hide RowsUp, ScrolledUp;
    if p.y + 1 == h {
      LineScrolled(p, w, h);
    }
  }

  lemma LineScrolled(p: Picture, w: nat, h: nat)
    requires InScreen(p, w, h)
    ensures w <= h * w && RowsUp(p, Picture(ScrolledUp(p.cells, w), 0, p.y), 1, w, h)
  {
    hide RowsUp, ScrolledUp, FromBelow;
    MulGrows(1, h, w);
    var r := Picture(ScrolledUp(p.cells, w), 0, p.y);
    ShiftedRows(p, 1, w, h);
    ShiftedOnce(p, w, h);
    RowsOfCells(p, Shifted(p, 1, w, h), r, 1, w, h);
  }

  lemma ShiftedOnce(p: Picture, w: nat, h: nat)
    requires InScreen(p, w, h) && w <= |p.cells|
    ensures Shifted(p, 1, w, h).cells == ScrolledUp(p.cells, w) && Rows(1, h) == 1
  {
    hide ScrolledUp;
    assert 1 * w == w;
  }

  /** Where the rows come from is a matter of the cells alone. */
  lemma RowsOfCells(p: Picture, r: Picture, q: Picture, k: int, w: nat, h: nat)
    requires RowsUp(p, r, k, w, h) && q.cells == r.cells
    ensures RowsUp(p, q, k, w, h)
  {
    forall x: nat, y: nat | x < w && y < h
      ensures FromBelow(p, q, k, x, y, w, h)
    {
      assert FromBelow(p, r, k, x, y, w, h);
    }
  }

  /** A glyph changes the cell at the cursor and no other, and the cursor goes on as a line feed
      does behind the last column. */
  lemma GlyphByte(p: Picture, code: Code, attr: bv8, w: nat, h: nat)
    requires InScreen(p, w, h) && code != 0x08 && code != 0x09 && code != 0x0A && code != 0x0D
    ensures At(p.x, p.y, w) < |p.cells|
    ensures var inked := p.(cells := p.cells[At(p.x, p.y, w) := Cell(code, attr)]);
            Typed(p, code, attr, w, h) == if p.x + 1 < w then inked.(x := p.x + 1) else Typed(inked, 0x0A, attr, w, h)
  {
    CellInside(p.x, p.y, w, h);
    hide NextTabStop, ScrolledUp;
  }

  /** A tab goes to the least multiple of four that is not before the cursor, and then one column
      on, or to the next row. */
  lemma TabStops(p: Picture, attr: bv8, w: nat, h: nat)
    requires InScreen(p, w, h)
    ensures var r, stop := Typed(p, 0x09, attr, w, h), (p.x + 3) / 4 * 4;
            && p.x <= stop < p.x + 4 && (stop + 1 < w ==> r == p.(x := stop + 1))
            && (stop + 1 >= w ==> r == Typed(p, 0x0A, attr, w, h))
  {
    var q, d := p.x / 4, p.x % 4;
    assert (p.x + 3) / 4 == if d == 0 then q else q + 1;
    hide NewLine;
  }

  // ----- Attributes -----

  /** Colour c: red is its bit 0, green bit 1, blue bit 2; `a` has the given bits of them set. */
  predicate Colored(a: bv8, c: nat, red: bv8, green: bv8, blue: bv8) {
    && (a & red != 0 <==> c % 2 == 1)
    && (a & green != 0 <==> c / 2 % 2 == 1)
    && (a & blue != 0 <==> c / 4 % 2 == 1)
  }

  lemma ColorTable(c: int, first: int)
    requires first <= c <= first + 7
    ensures Color(c, first) == if c == first then 0 else if c == first + 1 then 4 else if c == first + 2 then 2
                               else if c == first + 3 then 6 else if c == first + 4 then 1 else if c == first + 5 then 5
                               else if c == first + 6 then 3 else 7
  {
    ColorByte(c - first);
  }

  lemma ColorByte(c: int)
    requires 0 <= c <= 7
    ensures AnsiToVga(c as bv8) == if c == 0 then 0 else if c == 1 then 4 else if c == 2 then 2
                                   else if c == 3 then 6 else if c == 4 then 1 else if c == 5 then 5
                                   else if c == 6 then 3 else 7
  {
  }

  lemma ColorOf(c: nat, first: int)
    requires c < 8
    ensures Colored(Color(first + c, first), c, 4, 2, 1) && Color(first + c, first) < 8
  {
    hide Color;
    ColorTable(first + c, first);
  }

  /** Which attribute bits a foreground colour sets and which it keeps. */
  lemma ForegroundBits(a: bv8, c: nat)
    requires c < 8
    ensures var r := Styled(a, 30 + c); Colored(r, c, 0x04, 0x02, 0x01) && r & 0xF8 == a & 0xF8
    ensures var r := Styled(a, 90 + c); Colored(r, c, 0x04, 0x02, 0x01) && r & 0xF8 == (a & 0xF0) | 0x08
  {
    hide Color, Colored;
    ColorOf(c, 30);
    ColorOf(c, 90);
    LowBits(a, Color(30 + c, 30), c);
    LowBits(a, Color(90 + c, 90), c);
  }

  lemma LowBits(a: bv8, v: bv8, c: nat)
    requires v < 8 && Colored(v, c, 4, 2, 1)
    ensures var r := (a & !FOREGROUND_COLOR) | v; Colored(r, c, 0x04, 0x02, 0x01) && r & 0xF8 == a & 0xF8
    ensures var r := (a & !FOREGROUND) | v | FOREGROUND_BOLD;
            Colored(r, c, 0x04, 0x02, 0x01) && r & 0xF8 == (a & 0xF0) | 0x08
  {
  }

  /** The same for a background colour. */
  lemma BackgroundBits(a: bv8, c: nat)
    requires c < 8
    ensures var r := Styled(a, 40 + c); Colored(r, c, 0x40, 0x20, 0x10) && r & 0x8F == a & 0x8F
    ensures var r := Styled(a, 100 + c); Colored(r, c, 0x40, 0x20, 0x10) && r & 0x8F == (a & 0x0F) | 0x80
  {
    hide Color, Colored;
    ColorOf(c, 40);
    ColorOf(c, 100);
    HighBits(a, Color(40 + c, 40), c);
    HighBits(a, Color(100 + c, 100), c);
  }

  lemma HighBits(a: bv8, v: bv8, c: nat)
    requires v < 8 && Colored(v, c, 4, 2, 1)
    ensures var r := (a & !BACKGROUND_COLOR) | (v << 4); Colored(r, c, 0x40, 0x20, 0x10) && r & 0x8F == a & 0x8F
    ensures var r := (a & !BACKGROUND) | (v << 4) | BACKGROUND_BOLD;
            Colored(r, c, 0x40, 0x20, 0x10) && r & 0x8F == (a & 0x0F) | 0x80
  {
  }

  /** The other renditions: reset, bold on and off, the default colours; any other number changes
      nothing. */
  lemma OtherRenditions(a: bv8, code: int)
    ensures Styled(a, 0) == 0x07
    ensures Styled(a, 1) & 0x08 != 0 && Styled(a, 1) & 0xF7 == a & 0xF7
    ensures Styled(a, 22) & 0x08 == 0 && Styled(a, 22) & 0xF7 == a & 0xF7
    ensures Styled(a, 39) & 0x07 == 0x07 && Styled(a, 39) & 0xF8 == a & 0xF8
    ensures Styled(a, 49) & 0x70 == 0 && Styled(a, 49) & 0x8F == a & 0x8F
    ensures code !in {0, 1, 22, 39, 49} && !(30 <= code <= 37 || 40 <= code <= 47 || 90 <= code <= 97 || 100 <= code <= 107) ==>
              Styled(a, code) == a
  {
    hide Color;
  }

  /** Inversion exchanges the two halves of the attribute; 7 turns it on and 27 off. */
  lemma InversionBits(a: bv8, invert: bool, code: int)
    ensures Shown(a, false) == a
    ensures Shown(a, true) & 0x0F == a >> 4 && Shown(a, true) >> 4 == a & 0x0F
    ensures Inverted(invert, code) == if code == 7 then true else if code == 27 then false else invert
  {
  }

  // ----- The cell typed -----

  /** A byte that is shown as a glyph. */
  predicate Glyph(t: Term, code: Code) {
    Text(t, code) && code != 0x08 && code != 0x09 && code != 0x0A && code != 0x0D
  }

  /** Where the cell is that was typed last: at the old cursor, or one row above it if the screen
      scrolled. */
  function Printed(p: Picture, r: Picture, w: nat, h: nat): Cell {
    CellAt(r, p.x, if p.x + 1 < w || p.y + 1 < h || p.y == 0 then p.y else p.y - 1, w)
  }

  lemma TypedCell(p: Picture, code: Code, attr: bv8, w: nat, h: nat)
    requires InScreen(p, w, h) && (p.x + 1 < w || h > 1)
    requires code != 0x08 && code != 0x09 && code != 0x0A && code != 0x0D
    ensures Printed(p, Typed(p, code, attr, w, h), w, h) == Cell(code, attr)
  {
    CellInside(p.x, p.y, w, h);
    if p.x + 1 >= w && p.y + 1 >= h {
      MulStep(p.y - 1, w);
    }
    hide NextTabStop;
  }

  /** ESC [ a;b;... m and a glyph: the cell shows the glyph in the rendition that the list leaves. */
  lemma StyledGlyph(t: Term, args: seq<nat>, g: Code, w: nat, h: nat)
    requires Sound(t, w, h) && t.lexer == Initial && args != [] && |Listed(args)| <= SEQUENCE_LIMIT - 2
    requires Glyph(t, g) && (t.p.x + 1 < w || h > 1)
    ensures var r := NextAll(t, [ESCAPE, CSI] + Listed(args) + ['m' as Code] + [g], w, h);
            Printed(t.p, r.p, w, h) == Cell(g, Shown(StyledAll(t.attribute, args), InvertedAll(t.invert, args)))
  {
    hide NextAll, Listed, StyledAll, InvertedAll, Shown, Printed, Typed;
    RenditionRun(t, args, w, h);
    var u := NextAll(t, [ESCAPE, CSI] + Listed(args) + ['m' as Code], w, h);
    NextAllAppend(t, [ESCAPE, CSI] + Listed(args) + ['m' as Code], [g], w, h);
    NextOne(u, g, w, h);
    TypedCell(t.p, g, Shown(u.attribute, u.invert), w, h);
  }

  /** The two bytes of a number from 10 to 99. */
  lemma TwoDigits(d: nat, c: nat)
    requires 1 <= d < 10 && c < 10
    ensures Listed([10 * d + c]) == ['0' as Code + d, '0' as Code + c]
  {
    assert (10 * d + c) / 10 == d && (10 * d + c) % 10 == c;
    assert Decimal(d) == ['0' as Code + d];
  }

  lemma OneDigitListed(n: nat)
    requires n < 10
    ensures Listed([n]) == ['0' as Code + n]
  {
    assert Decimal(n) == ['0' as Code + n];
  }

  /** The bytes ESC [ 3 c m or ESC [ 4 c m, and a glyph: the cell shows colour c on its ground, and
      the rest of the attribute as before. */
  lemma ColoredGlyph(t: Term, back: bool, c: nat, g: Code, w: nat, h: nat)
    requires Sound(t, w, h) && t.lexer == Initial && !t.invert && c < 8
    requires Glyph(t, g) && (t.p.x + 1 < w || h > 1)
    ensures var digit: Code := if back then '4' as Code else '3' as Code;
            var r := NextAll(t, [0x1B, '[' as Code, digit, '0' as Code + c, 'm' as Code, g], w, h);
            var cell := Printed(t.p, r.p, w, h);
            && cell.glyph == g
            && (back ==> Colored(cell.attr, c, 0x40, 0x20, 0x10) && cell.attr & 0x8F == t.attribute & 0x8F)
            && (!back ==> Colored(cell.attr, c, 0x04, 0x02, 0x01) && cell.attr & 0xF8 == t.attribute & 0xF8)
  {
    hide NextAll, Printed, Styled, Listed, Colored, Sound, Glyph;
    var d: nat := if back then 4 else 3;
    OneListed(t, 10 * d + c, ['0' as Code + d, '0' as Code + c], g, w, h) by { TwoDigits(d, c); }
    assert [ESCAPE, CSI] + ['0' as Code + d, '0' as Code + c] + ['m' as Code] + [g] ==
           [0x1B, '[' as Code, '0' as Code + d, '0' as Code + c, 'm' as Code, g];
    ForegroundBits(t.attribute, c);
    BackgroundBits(t.attribute, c);
  }

  lemma OneListed(t: Term, n: nat, digits: seq<Code>, g: Code, w: nat, h: nat)
    requires Sound(t, w, h) && t.lexer == Initial && Listed([n]) == digits && |digits| <= SEQUENCE_LIMIT - 2
    requires Glyph(t, g) && (t.p.x + 1 < w || h > 1)
    ensures var r := NextAll(t, [ESCAPE, CSI] + digits + ['m' as Code] + [g], w, h);
            Printed(t.p, r.p, w, h) == Cell(g, Shown(Styled(t.attribute, n), Inverted(t.invert, n)))
  {
    hide *;
    StyledGlyph(t, [n], g, w, h);
    ListStep(t.attribute, t.invert, [n]);
    assert [n][1..] == [];
  }

  /** ESC [ 7 m and a glyph: the cell shows the attribute with its halves exchanged. ESC [ 2 7 m: it
      shows the attribute. */
  lemma InvertedGlyph(t: Term, g: Code, w: nat, h: nat)
    requires Sound(t, w, h) && t.lexer == Initial && Glyph(t, g) && (t.p.x + 1 < w || h > 1)
    ensures var cell := Printed(t.p, NextAll(t, [0x1B, '[' as Code, '7' as Code, 'm' as Code, g], w, h).p, w, h);
            cell.glyph == g && cell.attr & 0x0F == t.attribute >> 4 && cell.attr >> 4 == t.attribute & 0x0F
    ensures var cell := Printed(t.p, NextAll(t, [0x1B, '[' as Code, '2' as Code, '7' as Code, 'm' as Code, g], w, h).p, w, h);
            cell == Cell(g, t.attribute)
  {
    hide NextAll, Printed, Styled, Listed, Shown, Inverted, Sound, Glyph;
    OneListed(t, 7, ['7' as Code], g, w, h) by { OneDigitListed(7); }
    OneListed(t, 27, ['2' as Code, '7' as Code], g, w, h) by { TwoDigits(2, 7); }
    assert [ESCAPE, CSI] + ['7' as Code] + ['m' as Code] + [g] == [0x1B, '[' as Code, '7' as Code, 'm' as Code, g];
    assert [ESCAPE, CSI] + ['2' as Code, '7' as Code] + ['m' as Code] + [g] ==
           [0x1B, '[' as Code, '2' as Code, '7' as Code, 'm' as Code, g];
    InversionBits(t.attribute, t.invert, 7);
    InversionBits(t.attribute, t.invert, 27);
    OtherRenditions(t.attribute, 7);
    OtherRenditions(t.attribute, 27);
  }

  // ----- Sequences without a number -----

  /** A sequence without an argument takes the fallback. */
  lemma BareRun(t: Term, final: Code, w: nat, h: nat)
    requires Sound(t, w, h) && t.lexer == Initial && Drawing(final)
    ensures InScreen(t.p, w, h) && t.sx < w && t.sy < h
    ensures var s := [CSI, final];
            var r := NextAll(t, [ESCAPE, CSI, final], w, h);
            && Argument(s, 0) == 0 && Argument(s, 1) == 1 && Second(s, 1) == 1
            && Drawn(t, r) && r.p == Redrawn(t.p, s, t.sx, t.sy, w, h)
  {
    hide Redrawn, Drawn, NextAll, InScreen;
    DrawingRun(t, [], final, w, h);
    assert [ESCAPE, CSI] + [] + [final] == [ESCAPE, CSI, final] && [CSI] + [] + [final] == [CSI, final];
  }

  /** What the movements and the shifts draw depends on the first argument alone. */
  lemma RedrawnAlike(p: Picture, s: seq<Code>, u: seq<Code>, sx: nat, sy: nat, w: nat, h: nat)
    requires InScreen(p, w, h) && |s| >= 2 && |u| >= 2 && sx < w && sy < h
    requires s[|s| - 1] == u[|u| - 1] && Argument(s, 1) == Argument(u, 1)
    requires var f := s[|s| - 1]; 'A' as Code <= f <= 'E' as Code || f == 'S' as Code || f == 'T' as Code
    ensures Redrawn(p, s, sx, sy, w, h) == Redrawn(p, u, sx, sy, w, h)
  {
    hide Argument, Second, Swept, Shifted, Moved, Max, Min;
  }

  lemma Introducer()
    ensures ESCAPE == 0x1B && CSI == '[' as Code
  {
  }

  predicate Stepping(final: Code) {
    'A' as Code <= final <= 'E' as Code || final == 'S' as Code || final == 'T' as Code
  }

  lemma SteppingDraws(final: Code)
    ensures Stepping(final) ==> Drawing(final)
  {
  }

  /** Without a number the movements and the shifts act as with a 1. */
  lemma StepsOnce(t: Term, final: Code, w: nat, h: nat)
    requires Sound(t, w, h) && t.lexer == Initial && Stepping(final)
    ensures var r := NextAll(t, [0x1B, '[' as Code, final], w, h);
            Drawn(t, r) && r.p == NextAll(t, [0x1B, '[' as Code, '1' as Code, final], w, h).p
  {
    hide *;
    Introducer();
    SteppingDraws(final);
    BareRun(t, final, w, h);
    OneDigit(1);
    NumberedRun(t, 1, final, w, h);
    NumberedDigit(1, final);
    AlikeOnce(t.p, final, t.sx, t.sy, w, h);
  }

  lemma AlikeOnce(p: Picture, final: Code, sx: nat, sy: nat, w: nat, h: nat)
    requires InScreen(p, w, h) && sx < w && sy < h && Stepping(final)
    requires var s := [CSI] + Decimal(1) + [final]; |s| >= 2 && s[|s| - 1] == final && Argument(s, 1) == 1
    requires Argument([CSI, final], 1) == 1
    ensures Redrawn(p, [CSI, final], sx, sy, w, h) == Redrawn(p, [CSI] + Decimal(1) + [final], sx, sy, w, h)
  {
    hide Redrawn, InScreen, Argument, Decimal;
    RedrawnAlike(p, [CSI, final], [CSI] + Decimal(1) + [final], sx, sy, w, h);
  }

  lemma NumberedDigit(n: nat, final: Code)
    requires n < 10
    ensures Numbered(n, final) == [0x1B, '[' as Code, '0' as Code + n, final]
  {
    assert Decimal(n) == ['0' as Code + n];
  }

  /** Without a number J and K act as with a 0, and H and f go to the first column and row. */
  lemma ErasesAfter(t: Term, final: Code, w: nat, h: nat)
    requires Sound(t, w, h) && t.lexer == Initial
    requires final == 'J' as Code || final == 'K' as Code
    ensures var r := NextAll(t, [0x1B, '[' as Code, final], w, h);
            Drawn(t, r) && r.p == NextAll(t, [0x1B, '[' as Code, '0' as Code, final], w, h).p
  {
    hide *;
    Introducer();
    Erasers();
    BareRun(t, final, w, h);
    OneDigit(0);
    NumberedRun(t, 0, final, w, h);
    NumberedDigit(0, final);
    RedrawnErases(t.p, [CSI, final], t.sx, t.sy, w, h);
    RedrawnErases(t.p, [CSI] + Decimal(0) + [final], t.sx, t.sy, w, h);
  }

  lemma Placing(final: Code)
    ensures final == 'H' as Code || final == 'f' as Code ==> Drawing(final) && !Digit(final)
  {
  }

  lemma Home(t: Term, final: Code, w: nat, h: nat)
    requires Sound(t, w, h) && t.lexer == Initial
    requires final == 'H' as Code || final == 'f' as Code
    ensures var r := NextAll(t, [0x1B, '[' as Code, final], w, h);
            Drawn(t, r) && r.p == t.p.(x := 0, y := 0)
  {
    hide Drawn, NextAll, Argument, Second, Swept, Shifted, Digit;
    Placing(final);
    BareRun(t, final, w, h);
  }

  /** ESC [ n and H or f, without a second number: column n of the first row. */
  lemma ColumnOnly(t: Term, n: nat, final: Code, w: nat, h: nat)
    requires Sound(t, w, h) && t.lexer == Initial && |Decimal(n)| <= SEQUENCE_LIMIT - 2
    requires final == 'H' as Code || final == 'f' as Code
    ensures w >= 1 && h >= 1
    ensures var r := NextAll(t, Numbered(n, final), w, h);
            Drawn(t, r) && r.p == t.p.(x := Place(n, w), y := 0)
  {
    hide Drawn, NextAll, Numbered, Decimal, Argument, Second, Swept, Shifted, Digit;
    Placing(final);
    NumberedRun(t, n, final, w, h);
    NoSecond(n, final);
  }

  lemma NoSecond(n: nat, final: Code)
    requires !Digit(final)
    ensures var s := [CSI] + Decimal(n) + [final]; |s| >= 2 && Second(s, 1) == 1
  {
    var s := [CSI] + Decimal(n) + [final];
    hide Decimal, Digit;
    assert s[1..1 + |Decimal(n)|] == Decimal(n);
    ParsedNumber(s, 1, |s| - 1, 1, n);
  }

  // ----- Sequences that draw nothing -----

  /** Letters without a meaning, and J and K with a number above 3, leave the picture. */
  lemma OthersIgnored(t: Term, codes: seq<Code>, final: Code, w: nat, h: nat)
    requires Sound(t, w, h) && t.lexer == Initial && |codes| <= SEQUENCE_LIMIT - 2
    requires Drawing(final) && forall c | c in codes :: !Final(c)
    requires !Stepping(final) && final !in {'H' as Code, 'f' as Code, 'J' as Code, 'K' as Code, 'u' as Code}
    ensures var r := NextAll(t, [ESCAPE, CSI] + codes + [final], w, h); Drawn(t, r) && r.p == t.p
  {
    hide Drawn, NextAll, Drawing, Final, Argument, Steered, Swept, Shifted, Moved;
    DrawingRun(t, codes, final, w, h);
  }

  lemma ErasesNothing(t: Term, n: nat, final: Code, w: nat, h: nat)
    requires Sound(t, w, h) && t.lexer == Initial && |Decimal(n)| <= SEQUENCE_LIMIT - 2 && n > 3
    requires final == 'J' as Code || final == 'K' as Code
    ensures var r := NextAll(t, Numbered(n, final), w, h); Drawn(t, r) && r.p == t.p
  {
    hide Drawn, NextAll, Numbered, Decimal, Argument, Steered, Shifted;
    Erasers();
    NumberedRun(t, n, final, w, h);
  }

  // ----- Saving and restoring -----

  /** ESC [ s, any text, ESC [ u: the cursor is back, the text stays. */
  lemma PositionRestored(t: Term, codes: seq<Code>, w: nat, h: nat)
    requires Sound(t, w, h) && t.lexer == Initial && forall c | c in codes :: Text(t, c)
    ensures InScreen(t.p, w, h)
    ensures var r := NextAll(t, [0x1B, '[' as Code, 's' as Code] + codes + [0x1B, '[' as Code, 'u' as Code], w, h);
            && r.p == TypedAll(t.p, codes, Shown(t.attribute, t.invert), w, h).(x := t.p.x, y := t.p.y)
            && r.attribute == t.attribute && r.lexer == Initial
  {
    hide NextAll, Typed, TypedAll, Shown, Redrawn;
    var s, u := 's' as Code, 'u' as Code;
    SequenceRun(t, [], s, w, h);
    assert [ESCAPE, CSI] + [] + [s] == [ESCAPE, CSI, s] && [CSI] + [] + [s] == [CSI, s];
    var kept := NextAll(t, [ESCAPE, CSI, s], w, h);
    TextRun(kept, codes, w, h);
    var typed := NextAll(kept, codes, w, h);
    BareRun(typed, u, w, h);
    BackToSaved(typed, w, h);
    NextAllAppend(t, [ESCAPE, CSI, s], codes, w, h);
    NextAllAppend(t, [ESCAPE, CSI, s] + codes, [ESCAPE, CSI, u], w, h);
  }

  lemma BackToSaved(t: Term, w: nat, h: nat)
    requires Sound(t, w, h)
    ensures Redrawn(t.p, [CSI, 'u' as Code], t.sx, t.sy, w, h) == t.p.(x := t.sx, y := t.sy)
  {
    hide Argument, Steered, Swept, Shifted;
  }

  /** ESC 7, a rendition, any text, ESC 8: the attribute is back as well as the cursor. */
  lemma AttributeRestored(t: Term, args: seq<nat>, codes: seq<Code>, w: nat, h: nat)
    requires Sound(t, w, h) && t.lexer == Initial && args != [] && |Listed(args)| <= SEQUENCE_LIMIT - 2
    requires forall c | c in codes :: Text(t, c)
    ensures var r := NextAll(t, [0x1B, '7' as Code] + ([ESCAPE, CSI] + Listed(args) + ['m' as Code]) + codes + [0x1B, '8' as Code], w, h);
            r.p.x == t.p.x && r.p.y == t.p.y && r.attribute == t.attribute && r.lexer == Initial
  {
    hide InScreen, NextAll, Typed, Shown, StyledAll, InvertedAll, Listed;
    var seven, eight, list := [ESCAPE, '7' as Code], [ESCAPE, '8' as Code], [ESCAPE, CSI] + Listed(args) + ['m' as Code];
    EscapeRun(t, '7' as Code, w, h);
    var kept := NextAll(t, seven, w, h);
    RenditionRun(kept, args, w, h);
    var styled := NextAll(kept, list, w, h);
    TextRun(styled, codes, w, h);
    EscapeRun(NextAll(styled, codes, w, h), '8' as Code, w, h);
    NextAllAppend(t, seven, list, w, h);
    NextAllAppend(t, seven + list, codes, w, h);
    NextAllAppend(t, seven + list + codes, eight, w, h);
  }

  lemma EscapeRun(t: Term, code: Code, w: nat, h: nat)
    requires Sound(t, w, h) && t.lexer == Initial
    ensures Sound(t.(lexer := Escape), w, h)
    ensures NextAll(t, [ESCAPE, code], w, h) == NextEscape(t.(lexer := Escape), code, w, h)
  {
    hide InScreen, NextAll, NextEscape;
    NextOne(t, ESCAPE, w, h);
    NextOne(t.(lexer := Escape), code, w, h);
    NextAllAppend(t, [ESCAPE], [code], w, h);
    assert [ESCAPE] + [code] == [ESCAPE, code];
  }

  // ----- Shortcuts and strings -----

  /** After ESC < every byte but an escape is text, 0x9B, 0x90 and 0x9D included. */
  lemma ShortcutsOff(t: Term, codes: seq<Code>, w: nat, h: nat)
    requires Sound(t, w, h) && t.lexer == Initial && 0x1B !in codes
    ensures InScreen(t.p, w, h)
    ensures NextAll(t, [0x1B, '<' as Code] + codes, w, h).p == TypedAll(t.p, codes, Shown(t.attribute, t.invert), w, h)
  {
    hide NextAll, TypedAll, Shown;
    EscapeRun(t, '<' as Code, w, h);
    NextAllAppend(t, [ESCAPE, '<' as Code], codes, w, h);
    TextRun(NextAll(t, [ESCAPE, '<' as Code], w, h), codes, w, h);
  }

  /** After ESC > the byte 0x9B introduces control sequences as ESC [ does. */
  lemma ShortcutsOn(t: Term, codes: seq<Code>, w: nat, h: nat)
    requires Sound(t, w, h) && t.lexer == Initial
    ensures Sound(t.(shortcuts := true), w, h)
    ensures NextAll(t, [0x1B, '>' as Code, 0x9B] + codes, w, h) ==
            NextAll(t.(shortcuts := true), [0x1B, '[' as Code] + codes, w, h)
  {
    hide NextAll, InScreen;
    var on := t.(shortcuts := true);
    EscapeRun(t, '>' as Code, w, h);
    var u := NextAll(t, [ESCAPE, '>' as Code], w, h);
    NextOne(u, ESC_CSI, w, h);
    NextAllAppend(t, [ESCAPE, '>' as Code], [ESC_CSI], w, h);
    assert [ESCAPE, '>' as Code] + [ESC_CSI] == [ESCAPE, '>' as Code, ESC_CSI];
    EscapeRun(on, CSI, w, h);
    NextAllAppend(t, [ESCAPE, '>' as Code, ESC_CSI], codes, w, h);
    NextAllAppend(on, [ESCAPE, CSI], codes, w, h);
  }

  /** Bytes of a string are taken one by one while there is room and no terminator. */
  lemma {:induction false} StringRun(t: Term, codes: seq<Code>, w: nat, h: nat)
    requires Sound(t, w, h) && t.lexer == UntilSt && |t.taken| + |codes| < SEQUENCE_LIMIT
    requires t.taken[|t.taken| - 1] != ESCAPE && Unterminated(codes)
    ensures NextAll(t, codes, w, h) == t.(taken := t.taken + codes)
    decreases |codes|
  {
    hide Executed, InScreen, Next;
    if codes != [] {
      var init, last := codes[..|codes| - 1], codes[|codes| - 1];
      StringRun(t, init, w, h);
      assert last == ST && init != [] ==> codes[|codes| - 2] != ESCAPE;
      StringByte(t.(taken := t.taken + init), last, w, h);
      assert t.taken + init + [last] == t.taken + codes;
    } else {
      assert t.taken + codes == t.taken;
    }
  }

  lemma StringByte(t: Term, code: Code, w: nat, h: nat)
    requires Sound(t, w, h) && t.lexer == UntilSt && |t.taken| + 1 < SEQUENCE_LIMIT
    requires code == ST ==> t.taken[|t.taken| - 1] != ESCAPE
    ensures Next(t, code, w, h) == t.(taken := t.taken + [code])
  {
    hide Executed, InScreen;
  }

  /** No ESC \ inside. */
  ghost predicate Unterminated(codes: seq<Code>) {
    forall i: nat | i + 1 < |codes| :: codes[i + 1] == ST ==> codes[i] != ESCAPE
  }

  /** The terminator of a string. */
  lemma StringEnds(t: Term, w: nat, h: nat)
    requires Sound(t, w, h) && t.lexer == UntilSt && |t.taken| + 2 < SEQUENCE_LIMIT
    ensures NextAll(t, [ESCAPE, ST], w, h) == t.(taken := t.taken + [ESCAPE, ST], lexer := Initial)
  {
    hide InScreen, NextAll, Next, Executed;
    NextOne(t, ESCAPE, w, h);
    StringByte(t, ESCAPE, w, h);
    NextOne(t.(taken := t.taken + [ESCAPE]), ST, w, h);
    StringDone(t.(taken := t.taken + [ESCAPE]), w, h);
    NextAllAppend(t, [ESCAPE], [ST], w, h);
    assert [ESCAPE] + [ST] == [ESCAPE, ST];
    assert t.taken + [ESCAPE] + [ST] == t.taken + [ESCAPE, ST];
  }

  lemma StringDone(t: Term, w: nat, h: nat)
    requires Sound(t, w, h) && t.lexer == UntilSt && |t.taken| + 1 < SEQUENCE_LIMIT && t.taken[|t.taken| - 1] == ESCAPE
    ensures Next(t, ST, w, h) == t.(taken := t.taken + [ST], lexer := Initial)
  {
    hide Executed, InScreen;
    TerminatorIgnored(t.(taken := t.taken + [ST], lexer := Initial), w, h);
  }

  lemma TerminatorIgnored(u: Term, w: nat, h: nat)
    requires Sound(u, w, h) && |u.taken| >= 2 && u.taken[|u.taken| - 1] == ST && u.lexer == Initial
    ensures Executed(u, w, h) == u
  {
    hide Argument, Steered, Swept, Shifted, Moved;
  }

  /** A string up to its terminator ESC \ changes nothing that shows. */
  lemma StringIgnored(t: Term, opener: Code, codes: seq<Code>, w: nat, h: nat)
    requires Sound(t, w, h) && t.lexer == Initial && |codes| <= SEQUENCE_LIMIT - 4 && Unterminated(codes)
    requires opener in {']' as Code, 'X' as Code, '^' as Code, '_' as Code, 'P' as Code}
    ensures NextAll(t, [0x1B, opener] + codes + [0x1B, '\\' as Code], w, h) == t.(taken := [opener] + codes + [0x1B, '\\' as Code])
  {
    hide InScreen, NextAll, Next, Unterminated, Executed;
    EscapeRun(t, opener, w, h);
    var open := t.(lexer := UntilSt, taken := [opener]);
    assert NextAll(t, [ESCAPE, opener], w, h) == open;
    StringRun(open, codes, w, h);
    StringEnds(open.(taken := [opener] + codes), w, h);
    NextAllAppend(t, [ESCAPE, opener], codes, w, h);
    NextAllAppend(t, [ESCAPE, opener] + codes, [ESCAPE, ST], w, h);
  }

  /** With the shortcuts on, 0x90 and 0x9D open such strings, too. */
  lemma ShortStringIgnored(t: Term, opener: Code, codes: seq<Code>, w: nat, h: nat)
    requires Sound(t, w, h) && t.lexer == Initial && t.shortcuts && |codes| <= SEQUENCE_LIMIT - 4 && Unterminated(codes)
    requires opener == 0x90 || opener == 0x9D
    ensures NextAll(t, [opener] + codes + [0x1B, '\\' as Code], w, h) == t.(taken := ['[' as Code] + codes + [0x1B, '\\' as Code])
  {
    hide InScreen, NextAll, Unterminated, Executed;
    NextOne(t, opener, w, h);
    var open := t.(lexer := UntilSt, taken := [CSI]);
    assert NextAll(t, [opener], w, h) == open;
    hide Next;
    StringRun(open, codes, w, h);
    StringEnds(open.(taken := [CSI] + codes), w, h);
    NextAllAppend(t, [opener], codes, w, h);
    NextAllAppend(t, [opener] + codes, [ESCAPE, ST], w, h);
  }

  /** ESC and any other byte do nothing. */
  lemma EscapeIgnored(t: Term, code: Code, w: nat, h: nat)
    requires Sound(t, w, h) && t.lexer == Initial
    requires code !in {'[' as Code, ']' as Code, 'X' as Code, '^' as Code, '_' as Code, 'P' as Code}
    requires code !in {'<' as Code, '>' as Code, '7' as Code, '8' as Code}
    ensures NextAll(t, [0x1B, code], w, h) == t.(taken := [code])
  {
    hide InScreen, NextAll;
    EscapeRun(t, code, w, h);
  }
}
