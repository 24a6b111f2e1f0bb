/** Control sequences: numbers, argument lists and text attributes. */
module ConsoleCodes {
  import opened ConsolePaper

  const SEQUENCE_LIMIT: nat := 64

  const ESCAPE: Code := 0x1B
  const ESC_DCS: Code := 0x90
  const ESC_CSI: Code := 0x9B
  const ESC_OSC: Code := 0x9D

  const CSI: Code := '[' as Code
  const ST: Code := '\\' as Code

  // ----- Numbers in a sequence -----

  predicate Digit(c: Code) { '0' as Code <= c <= '9' as Code }

  /** How many digits stand at `head`, up to position `last`. */
  function Digits(s: seq<Code>, head: nat, last: nat): (k: nat)
    requires last < |s|
    ensures k > 0 ==> head + k <= last + 1
    ensures forall i | head <= i < head + k :: Digit(s[i])
    ensures head + k <= last ==> !Digit(s[head + k])
    decreases last + 1 - head
  {
    if head > last || !Digit(s[head]) then 0 else 1 + Digits(s, head + 1, last)
  }

  /** The number that digits spell, most significant first. */
  function Number(s: seq<Code>): nat
    requires forall c | c in s :: Digit(c)
  {
    if s == [] then 0
    else
      var last := s[|s| - 1];
      assert Digit(last);
      Number(s[..|s| - 1]) * 10 + (last - '0' as Code)
  }

  /** The decimal digits of a number. */
  function Decimal(n: nat): (s: seq<Code>)
    ensures s != [] && forall c | c in s :: Digit(c)
  {
    if n < 10 then ['0' as Code + n] else Decimal(n / 10) + ['0' as Code + n % 10]
  }

  lemma {:induction false} DecimalRoundTrip(n: nat)
    ensures Number(Decimal(n)) == n
  {
    if n >= 10 {
      DecimalRoundTrip(n / 10);
      var s := Decimal(n);
      assert s[..|s| - 1] == Decimal(n / 10);
    }
  }

  /** A numeric argument and where the reader stands behind it. Reading past the end puts back a
      byte that was never taken. */
  function Parsed(s: seq<Code>, head: nat, last: nat, fallback: int): (r: (int, int))
    requires last < |s|
    ensures head <= last ==> head <= r.1 <= last
    ensures head > last ==> r.1 == head - 1 && r.0 == fallback
    ensures fallback >= 0 ==> r.0 >= 0
  {
    var k := Digits(s, head, last);
    (if k == 0 then fallback else Number(s[head..head + k]), if head + k <= last then head + k else head + k - 1)
  }

  /** A number in front of a byte that is no digit is read back. */
  lemma ParsedNumber(s: seq<Code>, head: nat, last: nat, fallback: int, n: nat)
    requires head + |Decimal(n)| <= last < |s|
    requires s[head..head + |Decimal(n)|] == Decimal(n) && !Digit(s[head + |Decimal(n)|])
    ensures Digits(s, head, last) > 0 && Parsed(s, head, last, fallback) == (n, head + |Decimal(n)|)
  {
    DigitsAre(s, head, last, |Decimal(n)|);
    DecimalRoundTrip(n);
  }

  lemma {:induction false} DigitsAre(s: seq<Code>, head: nat, last: nat, k: nat)
    requires last < |s| && head + k <= last + 1 && (head + k <= last ==> !Digit(s[head + k]))
    requires forall c | c in s[head..head + k] :: Digit(c)
    ensures Digits(s, head, last) == k
    decreases k
  {
    if k > 0 {
      assert s[head] == s[head..head + k][0];
      assert s[head + 1..head + k] == s[head..head + k][1..];
      DigitsAre(s, head + 1, last, k - 1);
    }
  }

  lemma NumberOfNone(s: seq<Code>)
    requires s == []
    ensures Number(s) == 0
  {
  }

  /** Reading one digit more. */
  lemma NumberMore(s: seq<Code>, head: nat, k: nat)
    requires head + k < |s| && Digit(s[head + k]) && forall c | c in s[head..head + k] :: Digit(c)
    ensures (forall c | c in s[head..head + k + 1] :: Digit(c))
    ensures Number(s[head..head + k + 1]) == Number(s[head..head + k]) * 10 + (s[head + k] - '0' as Code)
  {
    var t := s[head..head + k + 1];
    assert t == s[head..head + k] + [s[head + k]];
    assert t[..|t| - 1] == s[head..head + k];
  }

  // ----- Attributes -----

  const FOREGROUND_BOLD: bv8 := 0x08
  const FOREGROUND_COLOR: bv8 := 0x07
  const FOREGROUND: bv8 := 0x0F
  const BACKGROUND_BOLD: bv8 := 0x80
  const BACKGROUND_COLOR: bv8 := 0x70
  const BACKGROUND: bv8 := 0xF0

  /** ANSI numbers red 1 and blue 4, the screen the other way round. */
  function AnsiToVga(color: bv8): bv8 {
    (color & 2) | ((color & 1) << 2) | ((color & 4) >> 2)
  }

  function Color(code: int, first: int): bv8
    requires first <= code <= first + 7
  {
    AnsiToVga((code - first) as bv8)
  }

  function Styled(a: bv8, code: int): bv8 {
    if code == 0 then DEFAULT_ATTRIBUTE
    else if code == 1 then a | FOREGROUND_BOLD
    else if code == 22 then a & !FOREGROUND_BOLD
    else if 30 <= code <= 37 then (a & !FOREGROUND_COLOR) | Color(code, 30)
    else if code == 39 then (a & !FOREGROUND_COLOR) | (DEFAULT_ATTRIBUTE & FOREGROUND_COLOR)
    else if 40 <= code <= 47 then (a & !BACKGROUND_COLOR) | (Color(code, 40) << 4)
    else if code == 49 then a & !BACKGROUND_COLOR
    else if 90 <= code <= 97 then (a & !FOREGROUND) | Color(code, 90) | FOREGROUND_BOLD
    else if 100 <= code <= 107 then (a & !BACKGROUND) | (Color(code, 100) << 4) | BACKGROUND_BOLD
    else a
  }

  function Inverted(invert: bool, code: int): bool {
    if code == 7 then true else if code == 27 then false else invert
  }

  /** The attribute a glyph gets. */
  function Shown(a: bv8, invert: bool): bv8 {
    if invert then ((0x0F & a) << 4) | (a >> 4) else a
  }

  lemma AnsiToVgaInvolutive(color: bv8)
    requires color < 8
    ensures AnsiToVga(AnsiToVga(color)) == color && AnsiToVga(color) < 8
  {
  }

  lemma InvertInvolutive(a: bv8)
    ensures Shown(Shown(a, true), true) == a
  {
  }

  /** Colours of one ground leave the other ground alone, and the last one wins. */
  lemma ColorsIndependent(a: bv8, f: int, b: int)
    requires 30 <= f <= 37 && 40 <= b <= 47
    ensures Styled(a, f) & BACKGROUND == a & BACKGROUND && Styled(a, b) & FOREGROUND == a & FOREGROUND
    ensures Styled(a, f) & FOREGROUND_COLOR == Color(f, 30) && Styled(a, b) & BACKGROUND_COLOR == Color(b, 40) << 4
    ensures Styled(Styled(a, f), b) == Styled(Styled(a, b), f)
  {
    hide Styled, Color;
    StyledColor(a, f, b);
    StyledColor(Styled(a, b), f, b);
    StyledColor(Styled(a, f), f, b);
    ColorBits(a, Color(f, 30), Color(b, 40));
  }

  lemma StyledColor(a: bv8, f: int, b: int)
    requires 30 <= f <= 37 && 40 <= b <= 47
    ensures Styled(a, f) == (a & !FOREGROUND_COLOR) | Color(f, 30) && Color(f, 30) < 8
    ensures Styled(a, b) == (a & !BACKGROUND_COLOR) | (Color(b, 40) << 4) && Color(b, 40) < 8
  {
  }

  lemma ColorBits(a: bv8, x: bv8, y: bv8)
    requires x < 8 && y < 8
    ensures var f, b := (a & !FOREGROUND_COLOR) | x, (a & !BACKGROUND_COLOR) | (y << 4);
            && f & BACKGROUND == a & BACKGROUND && b & FOREGROUND == a & FOREGROUND
            && f & FOREGROUND_COLOR == x && b & BACKGROUND_COLOR == y << 4
            && (f & !BACKGROUND_COLOR) | (y << 4) == (b & !FOREGROUND_COLOR) | x
  {
  }

  /** The loop over the arguments of a rendition sequence, from `head` on. */
  function Rendered(s: seq<Code>, head: nat, last: nat, a: bv8, invert: bool): (bv8, bool)
    requires last < |s|
    decreases last - head
  {
    if head >= last then (a, invert)
    else
      var p := Parsed(s, head, last, -1);
      if Digits(s, head, last) == 0 then (a, invert)
      else Rendered(s, p.1 + 1, last, Styled(a, p.0), Inverted(invert, p.0))
  }

  /** No argument at all resets. */
  function Rendition(s: seq<Code>, a: bv8, invert: bool): (bv8, bool)
    requires |s| >= 2
  {
    if 1 == |s| - 1 || Digits(s, 1, |s| - 1) == 0 then (Styled(a, 0), Inverted(invert, 0))
    else Rendered(s, 1, |s| - 1, a, invert)
  }

  // ----- Rendition lists -----

  /** Arguments separated by semicolons. */
  function Listed(args: seq<nat>): seq<Code> {
    if args == [] then []
    else if |args| == 1 then Decimal(args[0])
    else Decimal(args[0]) + [';' as Code] + Listed(args[1..])
  }

  function StyledAll(a: bv8, args: seq<nat>): bv8
    decreases |args|
  {
    if args == [] then a else StyledAll(Styled(a, args[0]), args[1..])
  }

  function InvertedAll(invert: bool, args: seq<nat>): bool
    decreases |args|
  {
    if args == [] then invert else InvertedAll(Inverted(invert, args[0]), args[1..])
  }

  lemma ListedParts(args: seq<nat>)
    requires args != []
    ensures var d := Decimal(args[0]);
            && |d| <= |Listed(args)| && Listed(args)[..|d|] == d && args[1..] == args[1..|args|]
            && (|args| == 1 ==> |Listed(args)| == |d| && args[1..] == [])
            && (|args| > 1 ==> |d| < |Listed(args)| && Listed(args)[|d|] == ';' as Code && Listed(args)[|d| + 1..] == Listed(args[1..]))
  {
  }

  /** A slice that is a list: its first number, and the rest behind the semicolon. */
  lemma SliceParts(s: seq<Code>, head: nat, last: nat, d: nat)
    requires head <= last < |s| && d <= last - head
    ensures s[head..head + d] == s[head..last][..d]
    ensures d < last - head ==> s[head + d] == s[head..last][d] && s[head + d + 1..last] == s[head..last][d + 1..]
  {
  }

  lemma {:induction false} RenderedList(s: seq<Code>, head: nat, args: seq<nat>, a: bv8, invert: bool)
    requires args != [] && head + |Listed(args)| + 1 == |s|
    requires s[head..|s| - 1] == Listed(args) && s[|s| - 1] == 'm' as Code
    ensures Digits(s, head, |s| - 1) > 0
    ensures Rendered(s, head, |s| - 1, a, invert) == (StyledAll(a, args), InvertedAll(invert, args))
    decreases |args|
  {
    hide *;
    var last, d := |s| - 1, |Decimal(args[0])|;
    ListedParts(args);
    SliceParts(s, head, last, d);
    Separators();
    ParsedNumber(s, head, last, -1, args[0]);
    RenderedStep(s, head, last, a, invert);
    ListStep(a, invert, args);
    if |args| > 1 {
      RenderedList(s, head + d + 1, args[1..], Styled(a, args[0]), Inverted(invert, args[0]));
    } else {
      RenderedEnd(s, head + d + 1, last, Styled(a, args[0]), Inverted(invert, args[0]));
    }
  }

  lemma Separators()
    ensures !Digit(';' as Code) && !Digit('m' as Code)
  {
  }

  lemma RenderedStep(s: seq<Code>, head: nat, last: nat, a: bv8, invert: bool)
    requires head < last < |s|
    ensures Digits(s, head, last) > 0 ==>
              var p := Parsed(s, head, last, -1);
              Rendered(s, head, last, a, invert) == Rendered(s, p.1 + 1, last, Styled(a, p.0), Inverted(invert, p.0))
  {
  }

  lemma ParsedInside(s: seq<Code>, head: nat, last: nat, fallback: int)
    requires head <= last < |s|
    ensures head <= Parsed(s, head, last, fallback).1 <= last
  {
  }

  lemma RenditionIs(s: seq<Code>, a: bv8, invert: bool)
    requires |s| >= 2
    ensures Rendition(s, a, invert) ==
            if 1 == |s| - 1 || Digits(s, 1, |s| - 1) == 0 then (Styled(a, 0), Inverted(invert, 0))
            else Rendered(s, 1, |s| - 1, a, invert)
  {
  }

  lemma RenderedEnd(s: seq<Code>, head: nat, last: nat, a: bv8, invert: bool)
    requires last < |s|
    ensures head >= last || Digits(s, head, last) == 0 ==> Rendered(s, head, last, a, invert) == (a, invert)
  {
  }

  lemma ListStep(a: bv8, invert: bool, args: seq<nat>)
    requires args != []
    ensures StyledAll(a, args) == StyledAll(Styled(a, args[0]), args[1..])
    ensures InvertedAll(invert, args) == InvertedAll(Inverted(invert, args[0]), args[1..])
    ensures args[1..] == [] ==> StyledAll(a, args) == Styled(a, args[0]) && InvertedAll(invert, args) == Inverted(invert, args[0])
  {
  }

  /** A list of numbers applies them from left to right. */
  lemma RenditionList(args: seq<nat>, a: bv8, invert: bool)
    requires args != []
    ensures Rendition([CSI] + Listed(args) + ['m' as Code], a, invert) == (StyledAll(a, args), InvertedAll(invert, args))
  {
    hide Listed, Digits, Rendered, StyledAll, InvertedAll, Styled, Inverted, Parsed;
    var s := [CSI] + Listed(args) + ['m' as Code];
    assert s[1..|s| - 1] == Listed(args);
    ListedParts(args);
    RenderedList(s, 1, args, a, invert);
  }
}
