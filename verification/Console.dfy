/** The text console: static state changed byte by byte, over screen memory. */
module Console {
  import opened Memory
  import opened Order
  import opened ConsolePaper
  import opened ConsoleCodes
  import opened ConsoleMachine

  /** Moving the rows and blanking the rest is scrolling. */
  lemma MovedUp(m: seq<Cell>, n: nat)
    requires n <= |m|
    ensures Erased(Ram.Copied(m, 0, n, |m| - n), |m| - n, |m|) == ScrolledUp(m, n)
  {
  }

  lemma MovedDown(m: seq<Cell>, n: nat)
    requires n <= |m|
    ensures Erased(Ram.Copied(m, n, 0, |m| - n), 0, n) == ScrolledDown(m, n)
  {
  }

  lemma ErasedMore(m: seq<Cell>, a: nat, b: nat)
    requires a <= b < |m|
    ensures Erased(m, a, b)[b := BLANK] == Erased(m, a, b + 1)
  {
    assert Blanks(b - a) + [BLANK] == Blanks(b + 1 - a);
  }

  lemma ErasedNone(m: seq<Cell>, a: nat, b: nat)
    requires b <= |m| && a >= b
    ensures Erased(m, a, b) == m
  {
  }

  class Screen {
    const width: nat
    const height: nat
    const memory: Ram<Cell>
    var x: nat
    var y: nat
    var attribute: bv8
    var invert: bool
    var shortcuts: bool
    var sx: nat
    var sy: nat
    var sa: bv8
    var lexer: Lexer
    var sequence: seq<Code>
    var length: nat

    ghost function Pic(): Picture
      reads `x, `y, memory
    {
      Picture(memory.cells, x, y)
    }

    ghost function State(): Term
      requires length <= |sequence|
      reads this, memory
    {
      Term(Pic(), attribute, invert, shortcuts, sx, sy, sa, lexer, sequence[..length])
    }

    ghost predicate Ready()
      reads this, memory
    {
      |sequence| == SEQUENCE_LIMIT && length <= SEQUENCE_LIMIT && Sound(State().(lexer := Initial), width, height)
    }

    ghost predicate Valid()
      reads this, memory
    {
      |sequence| == SEQUENCE_LIMIT && length <= SEQUENCE_LIMIT && Sound(State(), width, height)
    }

    constructor (width: nat, height: nat, memory: Ram<Cell>)
      requires width >= 1 && height >= 1 && |memory.cells| == height * width
      modifies memory
      ensures this.width == width && this.height == height && this.memory == memory && Valid()
      ensures memory.cells == Erased(old(memory.cells), 0, height * width - 1)
      ensures State().(p := Start(width, height).p) == Start(width, height) && x == 0 && y == 0
    {
      this.width, this.height, this.memory := width, height, memory;
      attribute, invert, shortcuts := DEFAULT_ATTRIBUTE, false, true;
      lexer, length := Initial, 0;
      sequence := seq(SEQUENCE_LIMIT, _ => 0);
      x, y, sx, sy, sa := 0, 0, 0, 0, DEFAULT_ATTRIBUTE;
      new;
      CellInside(width - 1, height - 1, width, height);
      MulStep(height - 1, width);
      Erase(0, 0, width - 1, height - 1);
    }

    method Cursor(nx: nat, ny: nat)
      modifies `x, `y
      ensures x == nx && y == ny
    {
      if nx != x || ny != y {
        x, y := nx, ny;
      }
    }

    /** Blanks the cells from one position up to another. */
    method Erase(x1: nat, y1: nat, x2: nat, y2: nat)
      requires At(x2, y2, width) <= |memory.cells|
      modifies memory
      ensures memory.cells == Erased(old(memory.cells), At(x1, y1, width), At(x2, y2, width))
    {
      hide Erased;
      var start, end := At(x1, y1, width), At(x2, y2, width);
      var glyph := start;
      if start >= end {
        ErasedNone(memory.cells, start, end);
      } else {
        ErasedNone(memory.cells, start, start);
      }
      while glyph < end
        invariant start <= glyph && (start <= end ==> glyph <= end) && |memory.cells| == |old(memory.cells)|
        invariant memory.cells == Erased(old(memory.cells), start, if start <= end then glyph else end)
      {
        ErasedMore(old(memory.cells), start, glyph);
        memory.cells := memory.cells[glyph := BLANK];
        glyph := glyph + 1;
      }
    }

    /** Shifts the rows, blanking the ones that come in, and moves the cursor along. */
    method Scroll(offset: int)
      requires |memory.cells| == height * width && height >= 1
      modifies `x, `y, memory
      ensures |memory.cells| == height * width && x == old(x)
      ensures var lines := Min(if offset < 0 then -offset else offset, height);
              && 0 <= lines * width <= height * width
              && (offset > 0 ==> memory.cells == ScrolledUp(old(memory.cells), lines * width) && y == Max(old(y) - lines, 0))
              && (offset < 0 ==> memory.cells == ScrolledDown(old(memory.cells), lines * width) && y == Min(old(y) + lines, height - 1))
              && (offset == 0 ==> memory.cells == old(memory.cells) && y == old(y))
    {
      hide ScrolledUp, ScrolledDown, Erased, Ram.Copied;
      ghost var m := memory.cells;
      var lines: nat := Min(if offset < 0 then -offset else offset, height);
      var last, moves := height - 1, height - lines;
      var clears := height - moves;
      var row := width;
      RowsSplit(lines, moves);
      if offset < 0 {
        memory.MemMove(lines * row, 0, moves * row);
        Erase(0, 0, 0, clears);
        MovedDown(m, lines * row);
        var ny := y + lines;
        if ny > last {
          ny := last;
        }
        Cursor(x, ny);
        return;
      }
      if offset > 0 {
        memory.MemMove(0, lines * row, moves * row);
        Erase(0, moves, 0, moves + clears);
        MovedUp(m, lines * row);
        var ny := y - lines;
        if ny < 0 {
          ny := 0;
        }
        Cursor(x, ny);
      }
    }

    lemma RowsSplit(lines: nat, moves: nat)
      requires lines + moves == height
      ensures lines * width + moves * width == height * width
    {
    }

    // ----- Arguments -----

    /** The sequence taken so far. */
    function Taken(): seq<Code>
      requires length <= |sequence|
      reads `sequence, `length
    {
      sequence[..length]
    }

    method NextChar(head: nat, last: nat) returns (c: Code, next: nat)
      requires last < length <= |sequence|
      ensures head > last ==> c == 0 && next == head
      ensures head <= last ==> c == Taken()[head] && next == head + 1
    {
      if head > last {
        return 0, head;
      }
      return sequence[head], head + 1;
    }

    /** A decimal argument, or the fallback; the byte behind it is put back, even when there was none. */
    method NextInt(head: nat, last: nat, fallback: int) returns (n: int, next: nat)
      requires 1 <= head <= last + 1 && last < length <= |sequence|
      ensures last < |Taken()| && (n, next as int) == Parsed(Taken(), head, last, fallback)
    {
      hide Number, Digits;
      ghost var s := Taken();
      var first, accumulator, pos := true, 0, head;
      ghost var k: nat := 0;
      assert s[head..head + k] == [];
      NumberOfNone(s[head..head + k]);
      while true
        invariant pos == head + k && pos <= last + 1 && first == (k == 0)
        invariant forall c | c in s[head..head + k] :: Digit(c)
        invariant accumulator == Number(s[head..head + k])
        decreases last + 1 - pos
      {
        var c, after := NextChar(pos, last);
        if '0' as Code <= c <= '9' as Code {
          NumberMore(s, head, k);
          accumulator := accumulator * 10 + (c - '0' as Code);
          pos, k := after, k + 1;
        } else {
          DigitsAre(s, head, last, k);
          return if first then fallback else accumulator, after - 1;
        }
        first := false;
      }
      n, next := fallback, head;
    }

    // ----- Attributes -----

    method SgrApply(code: int)
      modifies `attribute, `invert
      ensures attribute == Styled(old(attribute), code) && invert == Inverted(old(invert), code)
    {
      hide Color;
      if code == 0 {
        attribute := DEFAULT_ATTRIBUTE;
        return;
      }
      if code == 1 {
        attribute := attribute | FOREGROUND_BOLD;
        return;
      }
      if code == 22 {
        attribute := attribute & !FOREGROUND_BOLD;
        return;
      }
      if code == 7 {
        invert := true;
        return;
      }
      if code == 27 {
        invert := false;
        return;
      }
      if 30 <= code <= 37 {
        attribute := (attribute & !FOREGROUND_COLOR) | Color(code, 30);
      } else if code == 39 {
        attribute := (attribute & !FOREGROUND_COLOR) | (DEFAULT_ATTRIBUTE & FOREGROUND_COLOR);
      } else if 40 <= code <= 47 {
        attribute := (attribute & !BACKGROUND_COLOR) | (Color(code, 40) << 4);
      } else if code == 49 {
        attribute := attribute & !BACKGROUND_COLOR;
      } else if 90 <= code <= 97 {
        attribute := (attribute & !FOREGROUND) | Color(code, 90) | FOREGROUND_BOLD;
      } else if 100 <= code <= 107 {
        attribute := (attribute & !BACKGROUND) | (Color(code, 100) << 4) | BACKGROUND_BOLD;
      }
    }

    method SgrExecute(last: nat)
      requires 1 <= last < |sequence| && length == last + 1
      modifies `attribute, `invert
      ensures last == |Taken()| - 1 && (attribute, invert) == Rendition(Taken(), old(attribute), old(invert))
    {
      hide *;
      TakenIs();
      ghost var s := Taken();
      var first, head := true, 1;
      ghost var a0, i0 := attribute, invert;
      RenditionIs(s, a0, i0);
      while head < last
        invariant 1 <= head <= last + 1 && |s| == last + 1 && s == Taken()
        invariant first ==> head == 1 && attribute == a0 && invert == i0
        invariant !first ==> Digits(s, 1, last) != 0 && last > 1
        invariant Rendered(s, head, last, attribute, invert) == Rendered(s, 1, last, a0, i0)
        decreases last - head
      {
        var arg, next := NextInt(head, last, -1);
        ParsedInside(s, head, last, -1);
        var _, after := NextChar(next, last);
        NoArgument(s, head, last);
        RenderedStep(s, head, last, attribute, invert);
        if arg == -1 {
          break;
        }
        SgrApply(arg);
        first, head := false, after;
      }
      RenderedEnd(s, head, last, attribute, invert);
      if first {
        SgrApply(0);
      }
    }

    lemma TakenIs()
      requires length <= |sequence|
      ensures Taken() == sequence[..length]
    {
    }

    /** The fallback shows that no digit was there. */
    lemma NoArgument(s: seq<Code>, head: nat, last: nat)
      requires last < |s|
      ensures Parsed(s, head, last, -1).0 == -1 <==> Digits(s, head, last) == 0
    {
    }

    // ----- Control sequences -----

    /** The cell of the cursor lies in the memory. */
    lemma CursorInside()
      requires Ready()
      ensures width >= 1 && height >= 1 && |memory.cells| == height * width && x < width && y < height
      ensures At(x, y, width) < height * width
    {
      CellInside(x, y, width, height);
    }

    method EraseBy(mode: int, top: nat, bottom: nat)
      requires Ready() && top <= y <= bottom < height && mode >= 0
      modifies memory
      ensures InScreen(old(Pic()), width, height) && Pic() == Swept(old(Pic()), mode, top, bottom, width, height)
    {
      hide Ready, Valid, State, Taken, Sound, InScreen, Erased, At;
      CursorInside();
      CellInside(width - 1, bottom, width, height);
      ghost var t := StateFacts();
      if mode == 0 {
        Erase(x, y, width - 1, bottom);
      } else if mode == 1 {
        Erase(0, top, x, y);
      } else if mode == 2 || mode == 3 {
        Erase(0, top, width - 1, bottom);
      }
      PicIs();
    }

    lemma PicIs()
      ensures Pic() == Picture(memory.cells, x, y)
    {
    }

    method Steer(code: Code, last: nat)
      requires Ready() && Steering(code) && 1 <= last && length == last + 1 && sequence[last] == code
      modifies `x, `y
      ensures InScreen(old(Pic()), width, height) && Pic() == Steered(old(Pic()), Taken(), width, height)
    {
      hide Ready, Valid, State, Taken, Sound, InScreen, Parsed, Min, Max, Clamp;
      CursorInside();
      ghost var t := StateFacts();
      SteeringCodes(code);
      var arg, next := NextInt(1, last, 1);
      Bounded(y, arg, height - 1);
      Bounded(x, arg, width - 1);
      if code == 'A' as Code {
        Cursor(x, Max(y - arg, 0));
      } else if code == 'B' as Code {
        Cursor(x, Min(y + arg, height - 1));
      } else if code == 'C' as Code {
        Cursor(Min(x + arg, width - 1), y);
      } else if code == 'D' as Code {
        Cursor(Max(x - arg, 0), y);
      } else if code == 'E' as Code {
        Cursor(0, Min(y + arg, height - 1));
      } else {
        var n := arg - 1;
        var _, after := NextChar(next, last);
        var m;
        m, next := NextInt(after, last, 1);
        Clamped(n, width - 1);
        Clamped(m - 1, height - 1);
        Cursor(Clamp(n, 0, width - 1), Clamp(m - 1, 0, height - 1));
      }
      PicIs();
    }

    /** The sequences that change the picture. */
    method Redraw(code: Code, last: nat)
      requires Ready() && 1 <= last && length == last + 1 && sequence[last] == code
      modifies `x, `y, memory
      ensures InScreen(old(Pic()), width, height) && sx < width && sy < height
      ensures Pic() == Redrawn(old(Pic()), Taken(), sx, sy, width, height)
    {
      hide Ready, Valid, State, Taken, Sound, InScreen, Parsed, Steered, Swept, Shifted, Steering, Pic;
      CursorInside();
      ghost var t := StateFacts();
      if Steering(code) {
        Steer(code, last);
      } else if code == 'J' as Code {
        var n, _ := NextInt(1, last, 0);
        EraseBy(n, 0, height - 1);
      } else if code == 'K' as Code {
        var n, _ := NextInt(1, last, 0);
        EraseBy(n, y, y);
      } else if code == 'S' as Code {
        var n, _ := NextInt(1, last, 1);
        ScrollBy(n);
      } else if code == 'T' as Code {
        var n, _ := NextInt(1, last, 1);
        ScrollBy(-n);
      } else if code == 'u' as Code {
        Cursor(sx, sy);
        PicIs();
      }
    }

    method SavePosition()
      requires Ready()
      modifies `sx, `sy
      ensures Ready() && State() == old(State()).(sx := old(x), sy := old(y))
    {
      sx, sy := x, y;
    }

    method Render(last: nat)
      requires Ready() && 1 <= last && length == last + 1
      modifies `attribute, `invert
      ensures Ready() && |Taken()| >= 2
      ensures var r := Rendition(Taken(), old(attribute), old(invert));
              State() == old(State()).(attribute := r.0, invert := r.1)
    {
      hide Rendition;
      SgrExecute(last);
    }

    method Repaint(code: Code, last: nat)
      requires Ready() && 1 <= last && length == last + 1 && sequence[last] == code
      modifies `x, `y, memory
      ensures Ready() && |Taken()| >= 2 && InScreen(old(Pic()), width, height) && sx < width && sy < height
      ensures State() == old(State()).(p := Redrawn(old(Pic()), Taken(), sx, sy, width, height))
    {
      hide *;
      ghost var t := StateFacts();
      StateIs();
      Redraw(code, last);
      StateIs();
      PictureSound(t, Pic(), width, height);
      MakeReady(t.(p := Pic()));
    }

    method CsiExecute(last: nat)
      requires Ready() && 1 <= last && length == last + 1
      modifies `x, `y, `sx, `sy, `attribute, `invert, memory
      ensures Ready() && Sound(old(State()).(lexer := Initial), width, height)
      ensures State().(lexer := Initial) == Commanded(old(State()).(lexer := Initial), width, height)
    {
      hide Ready, Valid, State, Taken, Sound, InScreen, Rendition, Redrawn, Pic;
      ghost var t := StateFacts();
      var code := sequence[last];
      if code == 's' as Code {
        SavePosition();
      } else if code == 'm' as Code {
        Render(last);
      } else {
        Repaint(code, last);
      }
    }

    /** The state of a console that may execute. */
    lemma StateFacts() returns (t: Term)
      requires Ready()
      ensures |sequence| == SEQUENCE_LIMIT && length <= SEQUENCE_LIMIT && t == State().(lexer := Initial)
      ensures t == Term(Pic(), attribute, invert, shortcuts, sx, sy, sa, Initial, Taken())
      ensures |Taken()| == length && Pic() == Picture(memory.cells, x, y)
      ensures forall i: nat | i < length :: Taken()[i] == sequence[i]
      ensures Sound(t, width, height) && InScreen(Pic(), width, height) && sx < width && sy < height
    {
      t := State().(lexer := Initial);
    }

    lemma MakeReady(t: Term)
      requires |sequence| == SEQUENCE_LIMIT && length <= SEQUENCE_LIMIT
      requires Sound(t.(lexer := Initial), width, height)
      requires t.p == Pic() && t.attribute == attribute && t.invert == invert && t.shortcuts == shortcuts
      requires t.sx == sx && t.sy == sy && t.sa == sa && t.taken == Taken()
      ensures Ready() && State().(lexer := Initial) == t.(lexer := Initial)
    {
    }

    /** A scroll from inside the screen. */
    method ScrollBy(n: int)
      requires Ready()
      modifies `x, `y, memory
      ensures InScreen(old(Pic()), width, height) && Pic() == Shifted(old(Pic()), n, width, height)
    {
      CursorInside();
      Scroll(n);
    }

    /** Runs the sequence taken. */
    method Execute()
      requires Ready() && length >= 2
      modifies `x, `y, `sx, `sy, `attribute, `invert, memory
      ensures Ready() && length <= |sequence| == SEQUENCE_LIMIT && Sound(old(State()).(lexer := Initial), width, height)
      ensures State().(lexer := Initial) == Executed(old(State()).(lexer := Initial), width, height)
    {
      hide Ready, Valid, State, Taken, Sound, InScreen, Commanded, Pic;
      ghost var t := StateFacts();
      var last := length - 1;
      if sequence[0] == CSI {
        CsiExecute(last);
      }
    }

    // ----- The lexers -----

    lemma Begin() returns (t: Term)
      requires Valid()
      ensures Ready() && t == State() && Sound(t, width, height)
      ensures t == Term(Pic(), attribute, invert, shortcuts, sx, sy, sa, lexer, Taken())
      ensures |sequence| == SEQUENCE_LIMIT && |Taken()| == length <= SEQUENCE_LIMIT && Pic() == Picture(memory.cells, x, y)
      ensures x < width && y < height
    {
      t := State();
    }

    lemma StateIs()
      requires length <= |sequence|
      ensures State() == Term(Pic(), attribute, invert, shortcuts, sx, sy, sa, lexer, Taken())
    {
    }

    lemma Finish(u: Term)
      requires length <= |sequence| == SEQUENCE_LIMIT && Sound(u, width, height)
      requires u.p == Pic() && u.attribute == attribute && u.invert == invert && u.shortcuts == shortcuts
      requires u.sx == sx && u.sy == sy && u.sa == sa && u.taken == Taken() && u.lexer == lexer
      ensures Valid() && State() == u
    {
    }

    /** A byte more of an open sequence. */
    method Take(code: Code)
      requires Valid() && (lexer == Sequence || lexer == UntilSt)
      modifies `sequence, `length
      ensures Ready() && old(length) >= 1 && length == old(length) + 1 <= |sequence| == SEQUENCE_LIMIT
      ensures State() == old(State()).(taken := old(Taken()) + [code])
      ensures sequence[length - 2] == old(Taken())[old(length) - 1]
    {
      sequence := sequence[length := code];
      length := length + 1;
      assert sequence[..length] == old(sequence[..length]) + [code];
    }

    /** Moves the cursor on, scrolling below the last row. */
    method Settle(nx: nat, ny: nat)
      requires Ready() && nx < width && ny <= height
      modifies `x, `y, memory
      ensures InScreen(old(Pic()), width, height) && Pic() == Settled(old(Pic()), nx, ny, width, height)
    {
      CursorInside();
      MulStep(0, width);
      Cursor(nx, ny);
      if y >= height {
        Scroll(1);
      }
    }

    /** A byte outside control sequences. */
    method PutGlyph(code: Code)
      requires Ready() && code != BACKSPACE && code != CARRIAGE_RETURN && code != LINE_FEED
      modifies `x, `y, memory
      ensures InScreen(old(Pic()), width, height)
      ensures Pic() == Typed(old(Pic()), code, Shown(attribute, invert), width, height)
    {
      hide Ready, Valid, State, Taken, Sound, Shown, At, NextTabStop;
      CursorInside();
      ghost var t := StateFacts();
      var column := x;
      if code == TAB {
        column := NextTabStop(x);
      } else {
        memory.cells := memory.cells[At(x, y, width) := Cell(code, Shown(attribute, invert))];
        PicIs();
        PictureSound(t, Pic(), width, height);
        MakeReady(t.(p := Pic()));
      }
      var nx, ny := column + 1, y;
      if nx >= width {
        nx := 0;
        ny := ny + 1;
      }
      Settle(nx, ny);
    }

    /** Starts a sequence, or takes back to text. */
    method Open(first: Code, next: Lexer)
      requires Valid()
      modifies `sequence, `length, `lexer
      ensures Valid() && State() == old(State()).(taken := [first], lexer := next)
      ensures x == old(x) && y == old(y) && attribute == old(attribute)
    {
      hide *;
      ghost var t := Begin();
      OpenedSound(t, first, next, width, height);
      sequence := seq(SEQUENCE_LIMIT, _ => 0);
      sequence := sequence[0 := first];
      length := 1;
      lexer := next;
      FirstTaken(first);
      Finish(t.(taken := [first], lexer := next));
    }

    lemma FirstTaken(first: Code)
      requires |sequence| == SEQUENCE_LIMIT && sequence[0] == first && length == 1
      ensures length <= |sequence| && Taken() == [first]
    {
    }

    /** A byte that belongs to no control sequence. */
    method PutText(code: Code)
      requires Ready()
      modifies `x, `y, memory
      ensures InScreen(old(Pic()), width, height)
      ensures Pic() == Typed(old(Pic()), code, Shown(attribute, invert), width, height)
    {
      hide Ready, Valid, State, Taken, Sound, InScreen, Shown, At, NextTabStop, Pic;
      ghost var t := StateFacts();
      if code == BACKSPACE {
        if x > 0 {
          Cursor(x - 1, y);
        }
        PicIs();
        return;
      }
      if code == CARRIAGE_RETURN {
        Cursor(0, y);
        PicIs();
        return;
      }
      if code == LINE_FEED {
        Settle(0, y + 1);
        return;
      }
      PutGlyph(code);
    }

    method TextByte(code: Code)
      requires Valid()
      modifies `x, `y, memory
      ensures Valid() && InScreen(old(Pic()), width, height)
      ensures State() == old(State()).(p := Typed(old(Pic()), code, Shown(attribute, invert), width, height))
    {
      hide *;
      ghost var t := Begin();
      PutText(code);
      PictureSound(t, Pic(), width, height);
      Finish(t.(p := Pic()));
    }

    method ToEscape()
      requires Valid()
      modifies `lexer
      ensures Valid() && State() == old(State()).(lexer := Escape)
    {
      lexer := Escape;
    }

    method LexerInitial(code: Code)
      requires Valid() && lexer == Initial
      modifies this, memory
      ensures Valid() && Sound(old(State()), width, height)
      ensures State() == NextInitial(old(State()), code, width, height)
    {
      hide Ready, Valid, State, Taken, Sound, InScreen, Shown, Typed, Pic;
      ghost var t := Begin();
      if code == ESCAPE {
        ToEscape();
        return;
      }
      if shortcuts && code == ESC_CSI {
        Open(CSI, Sequence);
        return;
      }
      if shortcuts && (code == ESC_DCS || code == ESC_OSC) {
        Open(CSI, UntilSt);
        return;
      }
      TextByte(code);
    }

    method SetShortcuts(on: bool)
      requires Valid()
      modifies `shortcuts
      ensures Valid() && State() == old(State()).(shortcuts := on)
    {
      shortcuts := on;
    }

    method Save()
      requires Valid()
      modifies `sx, `sy, `sa
      ensures Valid() && State() == old(State()).(sx := old(x), sy := old(y), sa := old(attribute))
    {
      sx, sy, sa := x, y, attribute;
    }

    method Restore()
      requires Valid()
      modifies `x, `y, `attribute
      ensures Valid() && State() == old(State()).(p := Picture(old(memory.cells), old(sx), old(sy)), attribute := old(sa))
    {
      Cursor(sx, sy);
      attribute := sa;
    }

    method LexerEscape(code: Code)
      requires Valid()
      modifies this, memory
      ensures Valid() && Sound(old(State()), width, height)
      ensures State() == NextEscape(old(State()), code, width, height)
    {
      hide Ready, Valid, State, Taken, Sound, InScreen, Pic;
      ghost var t := Begin();
      if code == CSI {
        Open(code, Sequence);
        return;
      }
      if code == ']' as Code || code == 'X' as Code || code == '^' as Code || code == '_' as Code || code == 'P' as Code {
        Open(code, UntilSt);
        return;
      }
      Open(code, Initial);
      if code == '<' as Code {
        SetShortcuts(false);
      } else if code == '>' as Code {
        SetShortcuts(true);
      } else if code == '7' as Code {
        Save();
      } else if code == '8' as Code {
        Restore();
      }
    }

    /** A complete sequence is run, and text goes on. */
    method Complete()
      requires Ready() && length >= 2
      modifies this, memory
      ensures Valid() && Sound(old(State()).(lexer := Initial), width, height)
      ensures State() == Executed(old(State()).(lexer := Initial), width, height).(lexer := Initial)
    {
      hide *;
      ghost var t := StateFacts();
      Execute();
      StateIs();
      lexer := Initial;
      Finish(Executed(t, width, height).(lexer := Initial));
    }

    /** A sequence that goes on, unless the buffer is full. */
    method KeepTaking()
      requires Ready() && length >= 1
      modifies `lexer
      ensures Valid() && length <= |sequence|
      ensures State() == if length >= SEQUENCE_LIMIT then old(State()).(lexer := Initial) else old(State())
    {
      if length >= SEQUENCE_LIMIT {
        lexer := Initial;
      }
    }

    method LexerCsi(code: Code)
      requires Valid() && lexer == Sequence
      modifies this, memory
      ensures Valid() && Sound(old(State()), width, height)
      ensures State() == NextTaking(old(State()), code, width, height)
    {
      hide Ready, Valid, State, Taken, Sound, InScreen, Executed, Pic;
      ghost var t := Begin();
      Take(code);
      if 0x40 <= code <= 0x7E {
        Complete();
        return;
      }
      KeepTaking();
    }

    method LexerUntilSt(code: Code)
      requires Valid() && lexer == UntilSt
      modifies this, memory
      ensures Valid() && Sound(old(State()), width, height)
      ensures State() == NextTaking(old(State()), code, width, height)
    {
      hide Ready, Valid, State, Taken, Sound, InScreen, Executed, Pic;
      ghost var t := Begin();
      Take(code);
      if code == ST && length > 1 && sequence[length - 2] == ESCAPE {
        Complete();
        return;
      }
      KeepTaking();
    }

    /** One byte of output, through the lexer that is due: the machine's step. */
    method Write(code: Code)
      requires Valid()
      modifies this, memory
      ensures Valid() && Sound(old(State()), width, height)
      ensures State() == Next(old(State()), code, width, height)
    {
      match lexer
      case Initial => LexerInitial(code);
      case Escape => LexerEscape(code);
      case Sequence => LexerCsi(code);
      case UntilSt => LexerUntilSt(code);
    }
  }
}
