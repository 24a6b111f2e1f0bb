/** The console as a machine that takes bytes: four lexers over the screen. */
module ConsoleMachine {
  import opened Order
  import opened ConsolePaper
  import opened ConsoleCodes

  datatype Lexer = Initial | Escape | Sequence | UntilSt

  /** The screen and cursor, the attributes, what was saved, and the sequence taken so far. */
  datatype Term = Term(p: Picture, attribute: bv8, invert: bool, shortcuts: bool,
                       sx: nat, sy: nat, sa: bv8, lexer: Lexer, taken: seq<Code>)

  /** The cursor and the saved cursor are inside the screen; an open sequence has room left. */
  ghost predicate Sound(t: Term, w: nat, h: nat) {
    && InScreen(t.p, w, h) && t.sx < w && t.sy < h && |t.taken| <= SEQUENCE_LIMIT
    && (t.lexer.Sequence? || t.lexer.UntilSt? ==> 1 <= |t.taken| < SEQUENCE_LIMIT)
  }

  predicate Final(code: Code) { 0x40 <= code <= 0x7E }

  // ----- Control sequences -----

  function Moved(p: Picture, x: int, y: int, w: nat, h: nat): (r: Picture)
    requires InScreen(p, w, h) && 0 <= x < w && 0 <= y < h
    ensures InScreen(r, w, h)
  {
    p.(x := x, y := y)
  }

  /** Cells from (x1, y1) up to but not including (x2, y2) blank. */
  function Wiped(p: Picture, x1: nat, y1: nat, x2: nat, y2: nat, w: nat, h: nat): (r: Picture)
    requires InScreen(p, w, h) && x2 < w && y2 < h
    ensures InScreen(r, w, h)
  {
    CellInside(x2, y2, w, h);
    p.(cells := Erased(p.cells, At(x1, y1, w), At(x2, y2, w)))
  }

  /** Rows shifted, the cursor with them as far as the screen allows. */
  function Shifted(p: Picture, n: int, w: nat, h: nat): (r: Picture)
    requires InScreen(p, w, h)
    ensures InScreen(r, w, h)
  {
    var lines: nat := Min(if n < 0 then -n else n, h);
    MulGrows(lines, h, w);
    if n > 0 then Picture(ScrolledUp(p.cells, lines * w), p.x, Max(p.y - lines, 0))
    else if n < 0 then Picture(ScrolledDown(p.cells, lines * w), p.x, Min(p.y + lines, h - 1))
    else p
  }

  /** The first argument of a sequence, and the second behind one separator. */
  function Argument(s: seq<Code>, fallback: nat): nat
    requires |s| >= 2
  {
    Parsed(s, 1, |s| - 1, fallback).0
  }

  function Second(s: seq<Code>, fallback: nat): nat
    requires |s| >= 2
  {
    Parsed(s, Parsed(s, 1, |s| - 1, fallback).1 + 1, |s| - 1, fallback).0
  }

  predicate Steering(code: Code) {
    || code == 'A' as Code || code == 'B' as Code || code == 'C' as Code || code == 'D' as Code
    || code == 'E' as Code || code == 'H' as Code || code == 'f' as Code
  }

  /** Cursor movements stop at the edges. */
  function Steered(p: Picture, s: seq<Code>, w: nat, h: nat): (r: Picture)
    requires InScreen(p, w, h) && |s| >= 2
    ensures InScreen(r, w, h)
  {
    var code, n, x, y := s[|s| - 1], Argument(s, 1), p.x, p.y;
    if code == 'A' as Code then Moved(p, x, Max(y - n, 0), w, h)
    else if code == 'B' as Code then Moved(p, x, Min(y + n, h - 1), w, h)
    else if code == 'C' as Code then Moved(p, Min(x + n, w - 1), y, w, h)
    else if code == 'D' as Code then Moved(p, Max(x - n, 0), y, w, h)
    else if code == 'E' as Code then Moved(p, 0, Min(y + n, h - 1), w, h)
    else Moved(p, Clamp(n - 1, 0, w - 1), Clamp(Second(s, 1) - 1, 0, h - 1), w, h)
  }

  /** Erasing behind the cursor, before it, or all: in the rows from `top` to `bottom`. */
  function Swept(p: Picture, mode: nat, top: nat, bottom: nat, w: nat, h: nat): (r: Picture)
    requires InScreen(p, w, h) && top <= p.y <= bottom < h
    ensures InScreen(r, w, h)
  {
    if mode == 0 then Wiped(p, p.x, p.y, w - 1, bottom, w, h)
    else if mode == 1 then Wiped(p, 0, top, p.x, p.y, w, h)
    else if mode == 2 || mode == 3 then Wiped(p, 0, top, w - 1, bottom, w, h)
    else p
  }

  /** What a sequence does to the picture. */
  function Redrawn(p: Picture, s: seq<Code>, sx: nat, sy: nat, w: nat, h: nat): (r: Picture)
    requires InScreen(p, w, h) && |s| >= 2 && sx < w && sy < h
    ensures InScreen(r, w, h)
  {
    var code := s[|s| - 1];
    if Steering(code) then Steered(p, s, w, h)
    else if code == 'J' as Code then Swept(p, Argument(s, 0), 0, h - 1, w, h)
    else if code == 'K' as Code then Swept(p, Argument(s, 0), p.y, p.y, w, h)
    else if code == 'S' as Code then Shifted(p, Argument(s, 1), w, h)
    else if code == 'T' as Code then Shifted(p, 0 - Argument(s, 1) as int, w, h)
    else if code == 'u' as Code then Moved(p, sx, sy, w, h)
    else p
  }

  function Commanded(t: Term, w: nat, h: nat): (r: Term)
    requires Sound(t, w, h) && |t.taken| >= 2
    ensures Sound(r.(lexer := Initial), w, h)
  {
    var s := t.taken;
    var code := s[|s| - 1];
    if code == 's' as Code then t.(sx := t.p.x, sy := t.p.y)
    else if code == 'm' as Code then
      var r := Rendition(s, t.attribute, t.invert);
      t.(attribute := r.0, invert := r.1)
    else t.(p := Redrawn(t.p, s, t.sx, t.sy, w, h))
  }

  lemma SteeringCodes(code: Code)
    ensures Steering(code) <==>
              || code == 'A' as Code || code == 'B' as Code || code == 'C' as Code || code == 'D' as Code
              || code == 'E' as Code || code == 'H' as Code || code == 'f' as Code
  {
  }

  /** Bounding a coordinate keeps it between zero and the last one. */
  lemma Bounded(v: int, n: nat, last: nat)
    requires 0 <= v <= last
    ensures 0 <= Max(v - n, 0) <= last && 0 <= Min(v + n, last) <= last
  {
  }

  lemma Clamped(v: int, last: nat)
    ensures 0 <= Clamp(v, 0, last) <= last
  {
  }

  /** Only sequences that start with the introducer do anything. */
  function Executed(t: Term, w: nat, h: nat): (r: Term)
    requires Sound(t, w, h) && |t.taken| >= 2
    ensures Sound(r.(lexer := Initial), w, h)
  {
    if t.taken[0] == CSI then Commanded(t, w, h) else t
  }

  // ----- One byte -----

  predicate Text(t: Term, code: Code) {
    code != ESCAPE && (t.shortcuts ==> code != ESC_CSI && code != ESC_DCS && code != ESC_OSC)
  }

  function NextInitial(t: Term, code: Code, w: nat, h: nat): (r: Term)
    requires Sound(t, w, h) && t.lexer == Initial
    ensures Sound(r, w, h)
  {
    if code == ESCAPE then t.(lexer := Escape)
    else if t.shortcuts && code == ESC_CSI then t.(lexer := Sequence, taken := [CSI])
    else if t.shortcuts && (code == ESC_DCS || code == ESC_OSC) then t.(lexer := UntilSt, taken := [CSI])
    else t.(p := Typed(t.p, code, Shown(t.attribute, t.invert), w, h))
  }

  function NextEscape(t: Term, code: Code, w: nat, h: nat): (r: Term)
    requires Sound(t, w, h)
    ensures Sound(r, w, h)
  {
    var u := t.(taken := [code], lexer := Initial);
    if code == CSI then u.(lexer := Sequence)
    else if code == ']' as Code || code == 'X' as Code || code == '^' as Code || code == '_' as Code || code == 'P' as Code then
      u.(lexer := UntilSt)
    else if code == '<' as Code then u.(shortcuts := false)
    else if code == '>' as Code then u.(shortcuts := true)
    else if code == '7' as Code then u.(sx := t.p.x, sy := t.p.y, sa := t.attribute)
    else if code == '8' as Code then u.(p := Moved(t.p, t.sx, t.sy, w, h), attribute := t.sa)
    else u
  }

  function NextTaking(t: Term, code: Code, w: nat, h: nat): (r: Term)
    requires Sound(t, w, h) && (t.lexer.Sequence? || t.lexer.UntilSt?)
    ensures Sound(r, w, h)
  {
    var u := t.(taken := t.taken + [code]);
    var complete := if t.lexer.Sequence? then Final(code) else code == ST && t.taken[|t.taken| - 1] == ESCAPE;
    if complete then Executed(u.(lexer := Initial), w, h).(lexer := Initial)
    else if |u.taken| >= SEQUENCE_LIMIT then u.(lexer := Initial)
    else u
  }

  lemma OpenedSound(t: Term, first: Code, next: Lexer, w: nat, h: nat)
    requires Sound(t, w, h)
    ensures Sound(t.(taken := [first], lexer := next), w, h) && SEQUENCE_LIMIT >= 1
  {
  }

  lemma PictureSound(t: Term, p: Picture, w: nat, h: nat)
    requires Sound(t, w, h) && InScreen(p, w, h)
    ensures Sound(t.(p := p), w, h)
  {
  }

  function Next(t: Term, code: Code, w: nat, h: nat): (r: Term)
    requires Sound(t, w, h)
    ensures Sound(r, w, h)
  {
    match t.lexer
    case Initial => NextInitial(t, code, w, h)
    case Escape => NextEscape(t, code, w, h)
    case _ => NextTaking(t, code, w, h)
  }

  /** For any bytes at all the cursor stays inside the screen and the sequence below its limit. */
  function NextAll(t: Term, codes: seq<Code>, w: nat, h: nat): (r: Term)
    requires Sound(t, w, h)
    ensures Sound(r, w, h)
    decreases |codes|
  {
    if codes == [] then t else Next(NextAll(t, codes[..|codes| - 1], w, h), codes[|codes| - 1], w, h)
  }

  lemma {:induction false} NextAllAppend(t: Term, a: seq<Code>, b: seq<Code>, w: nat, h: nat)
    requires Sound(t, w, h)
    ensures NextAll(t, a + b, w, h) == NextAll(NextAll(t, a, w, h), b, w, h)
    decreases |b|
  {
    if b == [] {
      assert a + b == a;
    } else {
      NextAllAppend(t, a, b[..|b| - 1], w, h);
      assert (a + b)[..|a + b| - 1] == a + b[..|b| - 1];
    }
  }

  lemma NextOne(t: Term, code: Code, w: nat, h: nat)
    requires Sound(t, w, h)
    ensures NextAll(t, [code], w, h) == Next(t, code, w, h)
  {
    assert [code][..0] == [];
  }

  // ----- Text -----

  /** Text changes nothing but the picture, byte by byte. */
  lemma {:induction false} TextRun(t: Term, codes: seq<Code>, w: nat, h: nat)
    requires Sound(t, w, h) && t.lexer == Initial && forall c | c in codes :: Text(t, c)
    ensures NextAll(t, codes, w, h) == t.(p := TypedAll(t.p, codes, Shown(t.attribute, t.invert), w, h))
    decreases |codes|
  {
    hide Typed, Shown, InScreen;
    if codes != [] {
      TextRun(t, codes[..|codes| - 1], w, h);
      assert codes[|codes| - 1] in codes;
    }
  }

  /** The state that initialising leaves. */
  function Start(w: nat, h: nat): Term {
    Term(Picture(Blanks(h * w), 0, 0), DEFAULT_ATTRIBUTE, false, true, 0, 0, DEFAULT_ATTRIBUTE, Initial, [])
  }

  /** Any text on a fresh console: the screen is a window on the end of an endless sheet. */
  lemma TextIsPaper(codes: seq<Code>, w: nat, h: nat)
    requires w >= 1 && h >= 1 && forall c | c in codes :: Text(Start(w, h), c)
    ensures Sound(Start(w, h), w, h) && IsSheet(Sheet([Blanks(w)], 0), w)
    ensures Shows(NextAll(Start(w, h), codes, w, h).p, PennedAll(Sheet([Blanks(w)], 0), codes, DEFAULT_ATTRIBUTE, w), w, h)
  {
    PaperRun(codes, DEFAULT_ATTRIBUTE, w, h);
    TextRun(Start(w, h), codes, w, h);
  }

  // ----- Control sequences -----

  /** Bytes that end nothing are taken one by one while there is room. */
  lemma {:induction false} TakenRun(t: Term, codes: seq<Code>, w: nat, h: nat)
    requires Sound(t, w, h) && t.lexer == Sequence && |t.taken| + |codes| < SEQUENCE_LIMIT
    requires forall c | c in codes :: !Final(c)
    ensures NextAll(t, codes, w, h) == t.(taken := t.taken + codes)
    decreases |codes|
  {
    hide Executed, InScreen;
    if codes != [] {
      TakenRun(t, codes[..|codes| - 1], w, h);
      assert codes[|codes| - 1] in codes;
      assert t.taken + codes[..|codes| - 1] + [codes[|codes| - 1]] == t.taken + codes;
    } else {
      assert t.taken + codes == t.taken;
    }
  }

  /** A whole control sequence, introduced by two bytes, does its command and nothing else. */
  lemma SequenceRun(t: Term, codes: seq<Code>, final: Code, w: nat, h: nat)
    requires Sound(t, w, h) && t.lexer == Initial && |codes| <= 62
    requires Final(final) && forall c | c in codes :: !Final(c)
    ensures var u := t.(taken := [CSI] + codes + [final]);
            && Sound(u, w, h) && |u.taken| >= 2
            && NextAll(t, [ESCAPE, CSI] + codes + [final], w, h) == Commanded(u, w, h).(lexer := Initial)
  {
    hide Commanded, InScreen, NextAll;
    var open := t.(lexer := Sequence, taken := [CSI]);
    NextOne(t, ESCAPE, w, h);
    NextOne(t.(lexer := Escape), CSI, w, h);
    NextAllAppend(t, [ESCAPE], [CSI], w, h);
    assert [ESCAPE] + [CSI] == [ESCAPE, CSI];
    TakenRun(open, codes, w, h);
    NextAllAppend(t, [ESCAPE, CSI], codes, w, h);
    NextOne(open.(taken := [CSI] + codes), final, w, h);
    NextAllAppend(t, [ESCAPE, CSI] + codes, [final], w, h);
  }

  /** A sequence that fills the buffer is given up: the screen is as before. */
  lemma SequenceDropped(t: Term, codes: seq<Code>, w: nat, h: nat)
    requires Sound(t, w, h) && t.lexer == Initial && |codes| == 63
    requires forall c | c in codes :: !Final(c)
    ensures NextAll(t, [ESCAPE, CSI] + codes, w, h) == t.(taken := [CSI] + codes)
  {
    hide Executed, InScreen, NextAll;
    var open := t.(lexer := Sequence, taken := [CSI]);
    var init, last := codes[..|codes| - 1], codes[|codes| - 1];
    NextOne(t, ESCAPE, w, h);
    NextOne(t.(lexer := Escape), CSI, w, h);
    NextAllAppend(t, [ESCAPE], [CSI], w, h);
    assert [ESCAPE] + [CSI] == [ESCAPE, CSI];
    assert last in codes;
    TakenRun(open, init, w, h);
    NextOne(open.(taken := [CSI] + init), last, w, h);
    NextAllAppend(open, init, [last], w, h);
    assert init + [last] == codes;
    NextAllAppend(t, [ESCAPE, CSI], codes, w, h);
    assert [CSI] + init + [last] == [CSI] + codes;
  }

  lemma DecimalNotFinal(n: nat)
    ensures forall c | c in Decimal(n) :: !Final(c)
  {
  }

  /** A sequence with one number carries it as its first argument. */
  lemma OneArgument(n: nat, final: Code, fallback: nat)
    requires !Digit(final)
    ensures var s := [CSI] + Decimal(n) + [final];
            |s| >= 2 && s[|s| - 1] == final && Parsed(s, 1, |s| - 1, fallback).0 == n
  {
    var s := [CSI] + Decimal(n) + [final];
    hide Parsed, Decimal;
    assert s[1..1 + |Decimal(n)|] == Decimal(n);
    ParsedNumber(s, 1, |s| - 1, fallback, n);
  }

  /** Sequences that change the picture alone. */
  predicate Drawing(final: Code) {
    Final(final) && !Digit(final) && final != 's' as Code && final != 'm' as Code
  }

  /** After such a sequence only the picture is another one. */
  ghost predicate Drawn(t: Term, r: Term) {
    r == t.(p := r.p, taken := r.taken)
  }

  lemma DrawingCommanded(u: Term, w: nat, h: nat)
    requires Sound(u, w, h) && |u.taken| >= 2 && Drawing(u.taken[|u.taken| - 1])
    ensures InScreen(u.p, w, h) && u.sx < w && u.sy < h
    ensures Commanded(u, w, h) == u.(p := Redrawn(u.p, u.taken, u.sx, u.sy, w, h))
  {
    hide InScreen, Redrawn, Rendition;
  }

  lemma DrawingRun(t: Term, codes: seq<Code>, final: Code, w: nat, h: nat)
    requires Sound(t, w, h) && t.lexer == Initial && |codes| <= SEQUENCE_LIMIT - 2
    requires Drawing(final) && forall c | c in codes :: !Final(c)
    ensures var s := [CSI] + codes + [final];
            var r := NextAll(t, [ESCAPE, CSI] + codes + [final], w, h);
            && |s| >= 2 && s[|s| - 1] == final && InScreen(t.p, w, h) && t.sx < w && t.sy < h
            && Drawn(t, r) && r.p == Redrawn(t.p, s, t.sx, t.sy, w, h)
  {
    hide Redrawn, NextAll, Commanded, InScreen, Final;
    SequenceRun(t, codes, final, w, h) by { assert Final(final); }
    DrawingCommanded(t.(taken := [CSI] + codes + [final]), w, h);
  }

  /** ESC [ n and a letter. */
  function Numbered(n: nat, final: Code): seq<Code> { [ESCAPE, CSI] + Decimal(n) + [final] }

  lemma NumberedRun(t: Term, n: nat, final: Code, w: nat, h: nat)
    requires Sound(t, w, h) && t.lexer == Initial && |Decimal(n)| <= SEQUENCE_LIMIT - 2 && Drawing(final)
    ensures InScreen(t.p, w, h) && t.sx < w && t.sy < h
    ensures var s := [CSI] + Decimal(n) + [final];
            var r := NextAll(t, Numbered(n, final), w, h);
            && |s| >= 2 && s[|s| - 1] == final && Argument(s, 0) == Argument(s, 1) == n
            && Drawn(t, r) && r.p == Redrawn(t.p, s, t.sx, t.sy, w, h)
  {
    hide Redrawn, Drawn, NextAll, InScreen, Decimal, Parsed, Final, Digit;
    DecimalNotFinal(n);
    OneArgument(n, final, 0);
    OneArgument(n, final, 1);
    DrawingRun(t, Decimal(n), final, w, h);
  }

  /** ESC [ n and A, B, C, D or E: the cursor moves by n, at most to the edge. */
  lemma CursorMoves(t: Term, n: nat, final: Code, w: nat, h: nat)
    requires Sound(t, w, h) && t.lexer == Initial && |Decimal(n)| <= SEQUENCE_LIMIT - 2
    requires 'A' as Code <= final <= 'E' as Code
    ensures 0 <= Max(t.p.y - n, 0) && 0 <= Min(t.p.y + n, h - 1) && 0 <= Min(t.p.x + n, w - 1) && 0 <= Max(t.p.x - n, 0)
    ensures var r := NextAll(t, Numbered(n, final), w, h);
            && Drawn(t, r)
            && r.p == if final == 'A' as Code then t.p.(y := Max(t.p.y - n, 0))
                      else if final == 'B' as Code then t.p.(y := Min(t.p.y + n, h - 1))
                      else if final == 'C' as Code then t.p.(x := Min(t.p.x + n, w - 1))
                      else if final == 'D' as Code then t.p.(x := Max(t.p.x - n, 0))
                      else t.p.(x := 0, y := Min(t.p.y + n, h - 1))
  {
    hide Drawn, NextAll, Decimal, Numbered, Argument, Swept, Shifted, Second;
    NumberedRun(t, n, final, w, h);
  }

  // ----- Erasing and scrolling, cell by cell -----

  /** Exactly the cells from lo up to hi are blank now. */
  ghost predicate Blanked(p: Picture, r: Picture, lo: nat, hi: nat) {
    && r.x == p.x && r.y == p.y && |r.cells| == |p.cells|
    && forall i: nat | i < |p.cells| :: r.cells[i] == if lo <= i < hi then Cell(0, 0x07) else p.cells[i]
  }

  lemma WipedBlanks(p: Picture, x1: nat, y1: nat, x2: nat, y2: nat, w: nat, h: nat)
    requires InScreen(p, w, h) && x2 < w && y2 < h
    ensures Blanked(p, Wiped(p, x1, y1, x2, y2, w, h), At(x1, y1, w), At(x2, y2, w))
  {
    CellInside(x2, y2, w, h);
    hide InScreen, At;
  }

  lemma OneDigit(n: nat)
    requires n < 10
    ensures |Decimal(n)| == 1 <= SEQUENCE_LIMIT - 2
  {
  }

  /** Sweeping by modes 0 to 3, in cells. */
  lemma SweptBlanks(p: Picture, n: nat, top: nat, bottom: nat, w: nat, h: nat)
    requires InScreen(p, w, h) && top <= p.y <= bottom < h && n <= 3
    ensures w >= 1
    ensures Blanked(p, Swept(p, n, top, bottom, w, h), if n == 0 then At(p.x, p.y, w) else At(0, top, w),
                    if n == 1 then At(p.x, p.y, w) else At(w - 1, bottom, w))
  {
    hide Blanked, Wiped, At;
    WipedBlanks(p, p.x, p.y, w - 1, bottom, w, h);
    WipedBlanks(p, 0, top, p.x, p.y, w, h);
    WipedBlanks(p, 0, top, w - 1, bottom, w, h);
  }

  /** What J and K redraw. */
  lemma RedrawnErases(p: Picture, s: seq<Code>, sx: nat, sy: nat, w: nat, h: nat)
    requires InScreen(p, w, h) && |s| >= 2 && sx < w && sy < h
    ensures h >= 1 && p.y < h && w >= 1 && p.x < w
    ensures s[|s| - 1] == 'J' as Code ==> Redrawn(p, s, sx, sy, w, h) == Swept(p, Argument(s, 0), 0, h - 1, w, h)
    ensures s[|s| - 1] == 'K' as Code ==> Redrawn(p, s, sx, sy, w, h) == Swept(p, Argument(s, 0), p.y, p.y, w, h)
  {
    hide Steered, Shifted, Swept, Argument;
  }

  lemma Erasers()
    ensures Drawing('J' as Code) && Drawing('K' as Code)
  {
  }

  /** ESC [ n J with n from 0 to 3: behind the cursor, before it, or all, but never the last cell. */
  lemma EraseDisplay(t: Term, n: nat, w: nat, h: nat)
    requires Sound(t, w, h) && t.lexer == Initial && n <= 3
    ensures h >= 1 && w >= 1
    ensures var r := NextAll(t, Numbered(n, 'J' as Code), w, h);
            && Drawn(t, r)
            && Blanked(t.p, r.p, if n == 0 then At(t.p.x, t.p.y, w) else At(0, 0, w),
                       if n == 1 then At(t.p.x, t.p.y, w) else At(w - 1, h - 1, w))
  {
    hide *;
    OneDigit(n);
    Erasers();
    NumberedRun(t, n, 'J' as Code, w, h);
    RedrawnErases(t.p, [CSI] + Decimal(n) + ['J' as Code], t.sx, t.sy, w, h);
    SweptBlanks(t.p, n, 0, h - 1, w, h);
  }

  /** ESC [ n K: the same in the cursor's row. */
  lemma EraseRow(t: Term, n: nat, w: nat, h: nat)
    requires Sound(t, w, h) && t.lexer == Initial && n <= 3
    ensures h >= 1 && w >= 1
    ensures var r := NextAll(t, Numbered(n, 'K' as Code), w, h);
            && Drawn(t, r)
            && Blanked(t.p, r.p, if n == 0 then At(t.p.x, t.p.y, w) else At(0, t.p.y, w),
                       if n == 1 then At(t.p.x, t.p.y, w) else At(w - 1, t.p.y, w))
  {
    hide *;
    OneDigit(n);
    Erasers();
    NumberedRun(t, n, 'K' as Code, w, h);
    RedrawnErases(t.p, [CSI] + Decimal(n) + ['K' as Code], t.sx, t.sy, w, h);
    SweptBlanks(t.p, n, t.p.y, t.p.y, w, h);
  }

  function CellAt(p: Picture, x: nat, y: nat, w: nat): Cell {
    if At(x, y, w) < |p.cells| then p.cells[At(x, y, w)] else BLANK
  }

  /** The cell of column x and row y is the one k rows below, if there is such a row. */
  predicate FromBelow(p: Picture, r: Picture, k: int, x: nat, y: nat, w: nat, h: nat) {
    CellAt(r, x, y, w) == if 0 <= y + k < h then CellAt(p, x, y + k, w) else Cell(0, 0x07)
  }

  ghost predicate RowsUp(p: Picture, r: Picture, k: int, w: nat, h: nat) {
    |r.cells| == |p.cells| && forall x: nat, y: nat | x < w && y < h :: FromBelow(p, r, k, x, y, w, h)
  }

  /** As many rows as the screen has. */
  function Rows(n: int, h: nat): int {
    if n > h then h else if 0 - n > h then 0 - h else n
  }

  lemma ShiftedRows(p: Picture, n: int, w: nat, h: nat)
    requires InScreen(p, w, h)
    ensures RowsUp(p, Shifted(p, n, w, h), Rows(n, h), w, h)
  {
    hide Shifted, Rows, FromBelow;
    forall x: nat, y: nat | x < w && y < h
      ensures FromBelow(p, Shifted(p, n, w, h), Rows(n, h), x, y, w, h)
    {
      ShiftedCell(p, n, x, y, w, h);
    }
  }

  lemma ScrolledCells(m: seq<Cell>, n: nat)
    requires n <= |m|
    ensures forall i: nat | i < |m| :: ScrolledUp(m, n)[i] == if i + n < |m| then m[i + n] else BLANK
    ensures forall i: nat | i < |m| :: ScrolledDown(m, n)[i] == if i < n then BLANK else m[i - n]
  {
  }

  /** Moving by rows in the memory. */
  lemma RowsApart(x: nat, y: nat, k: nat, w: nat, h: nat)
    requires x < w && y < h && k <= h
    ensures At(x, y, w) < h * w && k * w <= h * w && At(x, y + k, w) == At(x, y, w) + k * w
    ensures y + k < h <==> At(x, y + k, w) < h * w
    ensures y >= k ==> At(x, y - k, w) == At(x, y, w) - k * w
    ensures y < k <==> At(x, y, w) < k * w
  {
    CellInside(x, y, w, h);
    MulGrows(k, h, w);
    assert (y + k) * w == y * w + k * w;
    if y + k < h {
      CellInside(x, y + k, w, h);
    } else {
      MulGrows(h, y + k, w);
    }
    if y >= k {
      assert (y - k) * w == y * w - k * w;
      MulGrows(k, y, w);
    } else {
      MulGrows(y + 1, k, w);
      MulStep(y, w);
    }
  }

  lemma ShiftedCell(p: Picture, n: int, x: nat, y: nat, w: nat, h: nat)
    requires InScreen(p, w, h) && x < w && y < h
    ensures FromBelow(p, Shifted(p, n, w, h), Rows(n, h), x, y, w, h)
  {
    hide At, ScrolledUp, ScrolledDown;
    var k: nat := Min(if n < 0 then -n else n, h);
    RowsApart(x, y, k, w, h);
    ScrolledCells(p.cells, k * w);
  }

  /** ESC [ n S and ESC [ n T: the rows n up or down, blank ones behind them, the cursor with its
      row inside the screen. */
  lemma ScrollRows(t: Term, n: nat, up: bool, w: nat, h: nat)
    requires Sound(t, w, h) && t.lexer == Initial && |Decimal(n)| <= SEQUENCE_LIMIT - 2
    ensures var r := NextAll(t, Numbered(n, if up then 'S' as Code else 'T' as Code), w, h);
            && Drawn(t, r) && RowsUp(t.p, r.p, Rows(if up then n else 0 - n, h), w, h)
            && r.p.x == t.p.x && r.p.y == if up then Max(t.p.y - Min(n, h), 0) else Min(t.p.y + Min(n, h), h - 1)
  {
    hide NextAll, Decimal, Numbered, Argument, Steered, Swept, RowsUp, ScrolledUp, ScrolledDown, Rows;
    NumberedRun(t, n, if up then 'S' as Code else 'T' as Code, w, h);
    ShiftedRows(t.p, if up then n else 0 - n, w, h);
  }

  // ----- Two numbers -----

  /** ESC [ n;m and a letter. */
  function Paired(n: nat, m: nat, final: Code): seq<Code> {
    [ESCAPE, CSI] + (Decimal(n) + [';' as Code] + Decimal(m)) + [final]
  }

  lemma PairNotFinal(n: nat, m: nat)
    ensures forall c | c in Decimal(n) + [';' as Code] + Decimal(m) :: !Final(c)
  {
    DecimalNotFinal(n);
    DecimalNotFinal(m);
    hide Decimal;
  }

  lemma PairPlaces(a: seq<Code>, b: seq<Code>, final: Code)
    ensures var s := [CSI] + (a + [';' as Code] + b) + [final];
            && |s| == |a| + |b| + 3
            && s[1..1 + |a|] == a && s[1 + |a|] == ';' as Code
            && s[|a| + 2..|a| + 2 + |b|] == b && s[|a| + 2 + |b|] == final
  {
  }

  /** Reading two numbers with a separator between them. */
  lemma TwoNumbers(s: seq<Code>, n: nat, m: nat)
    requires |s| == |Decimal(n)| + |Decimal(m)| + 3
    requires s[1..1 + |Decimal(n)|] == Decimal(n) && !Digit(s[1 + |Decimal(n)|])
    requires s[|Decimal(n)| + 2..|Decimal(n)| + 2 + |Decimal(m)|] == Decimal(m) && !Digit(s[|Decimal(n)| + 2 + |Decimal(m)|])
    ensures Argument(s, 1) == n && Second(s, 1) == m
  {
    hide Parsed, Decimal, Digit;
    ParsedNumber(s, 1, |s| - 1, 1, n);
    ParsedNumber(s, |Decimal(n)| + 2, |s| - 1, 1, m);
  }

  lemma TwoArguments(n: nat, m: nat, final: Code)
    requires !Digit(final)
    ensures var s := [CSI] + (Decimal(n) + [';' as Code] + Decimal(m)) + [final];
            |s| >= 2 && Argument(s, 1) == n && Second(s, 1) == m
  {
    var a, b := Decimal(n), Decimal(m);
    PairPlaces(a, b, final);
    assert !Digit(';' as Code);
    hide *;
    TwoNumbers([CSI] + (a + [';' as Code] + b) + [final], n, m);
  }

  /** A number counted from 1, as a place among `count`: at most the last one, and the first one
      for number 0. */
  function Place(n: nat, count: nat): (i: nat)
    requires count >= 1
    ensures i < count
  {
    if n == 0 then 0 else if n <= count then n - 1 else count - 1
  }

  /** ESC [ n;m and H or f: column n and row m, counted from 1, at most at the edges. */
  lemma CursorPlaced(t: Term, n: nat, m: nat, final: Code, w: nat, h: nat)
    requires Sound(t, w, h) && t.lexer == Initial && |Decimal(n)| + |Decimal(m)| <= SEQUENCE_LIMIT - 3
    requires final == 'H' as Code || final == 'f' as Code
    ensures w >= 1 && h >= 1
    ensures var r := NextAll(t, Paired(n, m, final), w, h);
            Drawn(t, r) && r.p == t.p.(x := Place(n, w), y := Place(m, h))
  {
    hide Drawn, NextAll, Decimal, Argument, Second, Swept, Shifted;
    PairNotFinal(n, m);
    TwoArguments(n, m, final);
    DrawingRun(t, Decimal(n) + [';' as Code] + Decimal(m), final, w, h);
  }

  /** ESC [ a;b;... m: the renditions, from left to right. */
  lemma {:induction false} RenditionRun(t: Term, args: seq<nat>, w: nat, h: nat)
    requires Sound(t, w, h) && t.lexer == Initial && args != [] && |Listed(args)| <= SEQUENCE_LIMIT - 2
    ensures var r := NextAll(t, [ESCAPE, CSI] + Listed(args) + ['m' as Code], w, h);
            r == t.(attribute := StyledAll(t.attribute, args), invert := InvertedAll(t.invert, args), taken := r.taken)
  {
    hide InScreen, NextAll, Rendition;
    ListedNotFinal(args);
    SequenceRun(t, Listed(args), 'm' as Code, w, h);
    RenditionList(args, t.attribute, t.invert);
  }

  lemma {:induction false} ListedNotFinal(args: seq<nat>)
    ensures forall c | c in Listed(args) :: !Final(c)
    decreases |args|
  {
    if args != [] {
      DecimalNotFinal(args[0]);
      ListedNotFinal(args[1..]);
    }
  }

  /** ESC 7, any text, ESC 8: the cursor and the attribute are back. */
  lemma SaveRestore(t: Term, codes: seq<Code>, w: nat, h: nat)
    requires Sound(t, w, h) && t.lexer == Initial && forall c | c in codes :: Text(t, c)
    ensures var r := NextAll(t, [ESCAPE, '7' as Code] + codes + [ESCAPE, '8' as Code], w, h);
            r.p.x == t.p.x && r.p.y == t.p.y && r.attribute == t.attribute && r.lexer == Initial
  {
    hide InScreen, NextAll, Typed, Shown;
    var seven, eight := '7' as Code, '8' as Code;
    var kept := t.(sx := t.p.x, sy := t.p.y, sa := t.attribute, taken := [seven]);
    NextOne(t, ESCAPE, w, h);
    NextOne(t.(lexer := Escape), seven, w, h);
    NextAllAppend(t, [ESCAPE], [seven], w, h);
    assert [ESCAPE] + [seven] == [ESCAPE, seven];
    TextRun(kept, codes, w, h);
    var typed := NextAll(kept, codes, w, h);
    NextOne(typed, ESCAPE, w, h);
    NextOne(typed.(lexer := Escape), eight, w, h);
    NextAllAppend(typed, [ESCAPE], [eight], w, h);
    assert [ESCAPE] + [eight] == [ESCAPE, eight];
    NextAllAppend(t, [ESCAPE, seven], codes, w, h);
    NextAllAppend(t, [ESCAPE, seven] + codes, [ESCAPE, eight], w, h);
  }
}
