/** Rendering a terminal row as text with SGR sequences, and what a terminal that reads the text shows. */
module TerminalRows {
  import opened Sequences
  import opened TerminalModes
  import opened Wrappers

  const NUL: char := '\U{0}'

  /** The emulator's colours: three kinds of default, or 24 bits of red, green and blue. */
  datatype Color = DefaultFG | DefaultBG | DefaultCursor | Rgb(value: nat)

  datatype Glyph = Glyph(
    symbol: char, reverse: bool, underline: bool, bold: bool, italic: bool, blink: bool, faint: bool,
    wideDummy: bool, fg: Color, bg: Color)

  predicate ValidColor(c: Color) {
    c.Rgb? ==> c.value < 0x100_0000
  }

  predicate ValidGlyph(g: Glyph) {
    g.symbol != ESC && ValidColor(g.fg) && ValidColor(g.bg)
  }

  // ---------------------------------------------------------------- printing

  function Digit(n: nat): char
    requires n < 10
  {
    '0' + n as char
  }

  function Decimal(n: nat): (s: string)
    ensures s != ""
  {
    if n < 10 then [Digit(n)] else Decimal(n / 10) + [Digit(n % 10)]
  }

  function JoinNumbers(ns: seq<nat>): string {
    if ns == [] then "" else if |ns| == 1 then Decimal(ns[0])
    else Decimal(ns[0]) + ";" + JoinNumbers(ns[1..])
  }

  function ColorNumbers(c: Color, plain: nat, extended: nat): seq<nat> {
    match c
    case Rgb(v) => [extended, 2, v / 0x100 / 0x100 % 0x100, v / 0x100 % 0x100, v % 0x100]
    case _ => [plain]
  }

  function Switch(on: bool, yes: nat, no: nat): nat {
    if on then yes else no
  }

  function AttributeNumbers(g: Glyph): seq<nat> {
    var switches := [Switch(g.reverse, 7, 27)] + [Switch(g.underline, 4, 24)] + [Switch(g.bold, 1, 22)]
      + [Switch(g.italic, 3, 23)] + [Switch(g.blink, 5, 25)];
    if g.faint then switches + [2] else switches
  }

  function SgrNumbers(g: Glyph): seq<nat> {
    AttributeNumbers(g) + ColorNumbers(g.fg, 39, 38) + ColorNumbers(g.bg, 49, 48)
  }

  function Sgr(g: Glyph): string {
    [ESC, '['] + JoinNumbers(SgrNumbers(g)) + "m"
  }

  function ShownChar(g: Glyph): char {
    if g.symbol != NUL then g.symbol else ' '
  }

  predicate KeepsLineOpen(g: Glyph) {
    && !g.wideDummy
    && (|| (g.symbol != NUL && g.symbol != ' ')
        || g.fg != DefaultFG || g.bg != DefaultBG
        || g.reverse || g.underline || g.bold || g.italic || g.blink || g.faint)
  }

  /** One past the last cell that keeps the line open. */
  function EndColumn(cells: seq<Glyph>): (end: nat)
    ensures end <= |cells| && (end > 0 ==> KeepsLineOpen(cells[end - 1]))
    ensures forall k :: end <= k < |cells| ==> !KeepsLineOpen(cells[k])
  {
    if cells == [] || KeepsLineOpen(cells[|cells| - 1]) then |cells| else EndColumn(cells[..|cells| - 1])
  }

  function NonDummy(cells: seq<Glyph>): seq<Glyph> {
    if cells == [] then [] else (if cells[0].wideDummy then [] else [cells[0]]) + NonDummy(cells[1..])
  }

  /** The cells a line is printed from. */
  function Printed(cells: seq<Glyph>): seq<Glyph> {
    NonDummy(cells[..EndColumn(cells)])
  }

  // A style is printed only where it differs from the one before.
  function LineFrom(cells: seq<Glyph>, style: string): string {
    if cells == [] then "" else
    var next := Sgr(cells[0]);
    (if next != style then next else "") + [ShownChar(cells[0])] + LineFrom(cells[1..], next)
  }

  function Line(cells: seq<Glyph>): string {
    LineFrom(Printed(cells), "")
  }

  // ------------------------------------------------------------- the methods

  // The codes as strings, joined by semicolons.
  function JoinCodes(codes: seq<string>): string {
    if codes == [] then "0" else if |codes| == 1 then codes[0]
    else JoinCodes(codes[..|codes| - 1]) + ";" + codes[|codes| - 1]
  }

  method JoinTerminalSGRCodes(codes: seq<string>) returns (joined: string)
    ensures joined == JoinCodes(codes)
  {
    if codes == [] {
      return "0";
    }
    joined := "";
    for index := 0 to |codes|
      invariant joined == if index == 0 then "" else JoinCodes(codes[..index])
    {
      if index > 0 {
        joined := joined + ";";
      }
      joined := joined + codes[index];
      assert codes[..index + 1][..index] == codes[..index];
    }
    assert codes[..|codes|] == codes;
  }

  function ColorCode(c: Color, plain: nat, extended: nat): string {
    JoinNumbers(ColorNumbers(c, plain, extended))
  }

  method BuildSGR(g: Glyph) returns (sgr: string)
    ensures sgr == Sgr(g)
  {
    var codes := [Decimal(Switch(g.reverse, 7, 27))];
    ghost var ns := [Switch(g.reverse, 7, 27)];
    codes, ns := AppendSwitch(codes, ns, Switch(g.underline, 4, 24));
    codes, ns := AppendSwitch(codes, ns, Switch(g.bold, 1, 22));
    codes, ns := AppendSwitch(codes, ns, Switch(g.italic, 3, 23));
    codes, ns := AppendSwitch(codes, ns, Switch(g.blink, 5, 25));
    if g.faint {
      codes, ns := AppendSwitch(codes, ns, 2);
    }
    assert ns == AttributeNumbers(g);
    codes, ns := AppendCode(codes, ns, ColorCode(g.fg, 39, 38), ColorNumbers(g.fg, 39, 38));
    codes, ns := AppendCode(codes, ns, ColorCode(g.bg, 49, 48), ColorNumbers(g.bg, 49, 48));
    var joined := JoinTerminalSGRCodes(codes);
    sgr := [ESC, '['] + joined + "m";
  }

  method AppendSwitch(codes: seq<string>, ghost ns: seq<nat>, n: nat)
    returns (codes': seq<string>, ghost ns': seq<nat>)
    requires codes != [] && ns != [] && JoinCodes(codes) == JoinNumbers(ns)
    ensures codes' == codes + [Decimal(n)] && ns' == ns + [n]
    ensures JoinCodes(codes') == JoinNumbers(ns')
  {
    codes', ns' := AppendCode(codes, ns, Decimal(n), [n]);
  }

  method AppendCode(codes: seq<string>, ghost ns: seq<nat>, code: string, ghost group: seq<nat>)
    returns (codes': seq<string>, ghost ns': seq<nat>)
    requires codes != [] && ns != [] && group != []
    requires JoinCodes(codes) == JoinNumbers(ns) && code == JoinNumbers(group)
    ensures codes' == codes + [code] && ns' == ns + group
    ensures JoinCodes(codes') == JoinNumbers(ns')
  {
    codes', ns' := codes + [code], ns + group;
    JoinConcat(ns, group);
    assert codes'[..|codes|] == codes;
  }

  method LineEndColumn(cells: seq<Glyph>) returns (end: nat)
    ensures end == EndColumn(cells)
  {
    end := |cells|;
    while end > 0
      invariant end <= |cells| && EndColumn(cells) == EndColumn(cells[..end])
    {
      if KeepsLineOpen(cells[end - 1]) {
        return;
      }
      assert cells[..end][..end - 1] == cells[..end - 1];
      end := end - 1;
    }
  }

  /** A row of the snapshot, cell by cell. */
  method MirrorLine(cells: seq<Glyph>) returns (line: string)
    ensures line == Line(cells)
  {
    line := "";
    var previousStyle := "";
    var endCol := LineEndColumn(cells);
    ghost var all := cells[..endCol];
    assert all[0..] == all && "" + Line(cells) == Line(cells);
    for col := 0 to endCol
      invariant line + LineFrom(NonDummy(all[col..]), previousStyle) == Line(cells)
    {
      var glyph := cells[col];
      assert all[col..][0] == glyph && all[col..][1..] == all[col + 1..];
      ghost var rest := NonDummy(all[col + 1..]);
      ghost var before, style := line, previousStyle;
      if !glyph.wideDummy {
        var nextStyle := BuildSGR(glyph);
        if nextStyle != previousStyle {
          line := line + nextStyle;
          previousStyle := nextStyle;
        }
        line := line + [if glyph.symbol != NUL then glyph.symbol else ' '];
        LineStep(before, glyph, rest, style);
      } else {
        assert [] + rest == rest;
      }
    }
    assert line + "" == line;
  }

  lemma LineStep(before: string, glyph: Glyph, rest: seq<Glyph>, style: string)
    ensures before + LineFrom([glyph] + rest, style)
         == before + (if Sgr(glyph) != style then Sgr(glyph) else "") + [ShownChar(glyph)] + LineFrom(rest, Sgr(glyph))
    ensures before + "" == before
  {
    var printed := if Sgr(glyph) != style then Sgr(glyph) else "";
    assert ([glyph] + rest)[1..] == rest;
    ConcatAssoc(before, printed, [ShownChar(glyph)]);
    ConcatAssoc(before, printed + [ShownChar(glyph)], LineFrom(rest, Sgr(glyph)));
  }

  // -------------------------------------------------- joining and splitting

  lemma {:induction false} JoinConcat(a: seq<nat>, b: seq<nat>)
    requires a != [] && b != []
    ensures JoinNumbers(a + b) == JoinNumbers(a) + ";" + JoinNumbers(b)
  {
    CutFirst(a, b, 1);
    if |a| > 1 {
      JoinConcat(a[1..], b);
      ConcatAssoc(Decimal(a[0]) + ";", JoinNumbers(a[1..]), ";");
      ConcatAssoc(Decimal(a[0]) + ";", JoinNumbers(a[1..]) + ";", JoinNumbers(b));
    }
  }

  // ------------------------------------------------------------ a terminal

  datatype Pen = Pen(reverse: bool, underline: bool, bold: bool, italic: bool, blink: bool, faint: bool,
                     fg: Option<nat>, bg: Option<nat>)

  /** A character and the pen it is drawn with. */
  datatype Shown = Shown(symbol: char, pen: Pen)

  datatype Screen = Screen(cells: seq<Shown>, pen: Pen)

  // Reading decimal parameters separated by semicolons, the first of them begun with `value`.
  function ReadNumbers(s: string, value: nat): (ns: seq<nat>)
    requires AllParams(s)
    ensures ns != []
  {
    if s == "" then [value]
    else if s[0] == ';' then [value] + ReadNumbers(s[1..], 0)
    else
      assert s[0] in s;
      ReadNumbers(s[1..], value * 10 + (s[0] - '0') as nat)
  }

  /** Select Graphic Rendition, section 8.3.117 of ECMA-48, for the parameters that concern a mirror row. */
  function SelectOne(pen: Pen, n: nat): Pen {
    if n == 1 then pen.(bold := true)
    else if n == 2 then pen.(faint := true)
    else if n == 3 then pen.(italic := true)
    else if n == 4 then pen.(underline := true)
    else if n == 5 then pen.(blink := true)
    else if n == 7 then pen.(reverse := true)
    else if n == 22 then pen.(bold := false, faint := false)
    else if n == 23 then pen.(italic := false)
    else if n == 24 then pen.(underline := false)
    else if n == 25 then pen.(blink := false)
    else if n == 27 then pen.(reverse := false)
    else if n == 39 then pen.(fg := None)
    else if n == 49 then pen.(bg := None)
    else pen
  }

  function Rgb24(r: nat, g: nat, b: nat): nat {
    r * 0x1_0000 + g * 0x100 + b
  }

  function Select(pen: Pen, ns: seq<nat>): Pen
    decreases |ns|
  {
    if ns == [] then pen
    else if |ns| >= 5 && ns[0] == 38 && ns[1] == 2 then
      Select(pen.(fg := Some(Rgb24(ns[2], ns[3], ns[4]))), ns[5..])
    else if |ns| >= 5 && ns[0] == 48 && ns[1] == 2 then
      Select(pen.(bg := Some(Rgb24(ns[2], ns[3], ns[4]))), ns[5..])
    else Select(SelectOne(pen, ns[0]), ns[1..])
  }

  predicate AllParams(s: string) {
    forall c <- s :: IsParam(c)
  }

  // The length of the SGR sequence at the start of `s`, or zero.
  function SgrLength(s: string): (n: nat)
    ensures n <= |s| && (n > 0 ==> n >= 3 && AllParams(s[2..n - 1]))
  {
    if |s| < 2 || s[0] != ESC || s[1] != '[' then 0 else
    var end := ParamEnd(s, 2);
    if end < |s| && s[end] == 'm' then end + 1 else 0
  }

  /** Characters are drawn with the current pen; SGR sequences change it; any other ESC is dropped. */
  function Interpret(s: string, pen: Pen): Screen
    decreases |s|
  {
    if s == "" then Screen([], pen) else
    var n := SgrLength(s);
    if n > 0 then Interpret(s[n..], Select(pen, ReadNumbers(s[2..n - 1], 0)))
    else if s[0] == ESC then Interpret(s[1..], pen)
    else
      var rest := Interpret(s[1..], pen);
      Screen([Shown(s[0], pen)] + rest.cells, rest.pen)
  }

  // ------------------------------------------------- reading undoes printing

  lemma {:induction false} DecimalIsParams(n: nat)
    ensures AllParams(Decimal(n)) && ';' !in Decimal(n)
  {
    if n >= 10 { DecimalIsParams(n / 10); }
  }

  lemma {:induction false} ReadDecimal(n: nat, rest: string)
    requires AllParams(rest)
    ensures AllParams(Decimal(n) + rest) && ReadNumbers(Decimal(n) + rest, 0) == ReadNumbers(rest, n)
  {
    DecimalIsParams(n);
    if n < 10 {
      assert ([Digit(n)] + rest)[1..] == rest;
    } else {
      var tail := [Digit(n % 10)] + rest;
      ReadDecimal(n / 10, tail);
      assert tail[1..] == rest;
      ConcatAssoc(Decimal(n / 10), [Digit(n % 10)], rest);
    }
  }

  lemma {:induction false} ReadUndoesJoin(ns: seq<nat>)
    requires ns != []
    ensures AllParams(JoinNumbers(ns)) && ReadNumbers(JoinNumbers(ns), 0) == ns
  {
    if |ns| == 1 {
      ReadDecimal(ns[0], "");
      ConcatNil(Decimal(ns[0]));
    } else {
      var rest := ";" + JoinNumbers(ns[1..]);
      ReadUndoesJoin(ns[1..]);
      assert rest[1..] == JoinNumbers(ns[1..]);
      ReadDecimal(ns[0], rest);
      ConcatAssoc(Decimal(ns[0]), ";", JoinNumbers(ns[1..]));
      HeadAndTail(ns);
    }
  }

  /** The pen after a glyph's style: every attribute is set, except that a pen already faint stays so under bold. */
  function PenOf(g: Glyph, before: Pen): Pen {
    Pen(g.reverse, g.underline, g.bold, g.italic, g.blink, g.faint || (g.bold && before.faint),
        ColorOf(g.fg), ColorOf(g.bg))
  }

  function ColorOf(c: Color): Option<nat> {
    if c.Rgb? then Some(c.value) else None
  }

  lemma LowByte(v: nat, bound: nat)
    requires v < bound * 0x100
    ensures v / 0x100 < bound && v == v / 0x100 * 0x100 + v % 0x100
  {
  }

  lemma RgbBytes(v: nat)
    requires v < 0x100_0000
    ensures Rgb24(v / 0x100 / 0x100 % 0x100, v / 0x100 % 0x100, v % 0x100) == v
  {
    LowByte(v, 0x1_0000);
    LowByte(v / 0x100, 0x100);
  }

  lemma SelectRgb(pen: Pen, r: nat, g: nat, b: nat, rest: seq<nat>)
    ensures Select(pen, [38, 2, r, g, b] + rest) == Select(pen.(fg := Some(Rgb24(r, g, b))), rest)
    ensures Select(pen, [48, 2, r, g, b] + rest) == Select(pen.(bg := Some(Rgb24(r, g, b))), rest)
  {
    assert ([38, 2, r, g, b] + rest)[5..] == rest;
    assert ([48, 2, r, g, b] + rest)[5..] == rest;
  }

  lemma SelectDefault(pen: Pen, n: nat, rest: seq<nat>)
    requires n == 39 || n == 49
    ensures Select(pen, [n] + rest) == Select(SelectOne(pen, n), rest)
  {
    assert ([n] + rest)[1..] == rest;
  }

  lemma SelectRgbColor(pen: Pen, v: nat, rest: seq<nat>)
    requires v < 0x100_0000
    ensures Select(pen, ColorNumbers(Rgb(v), 39, 38) + rest) == Select(pen.(fg := Some(v)), rest)
    ensures Select(pen, ColorNumbers(Rgb(v), 49, 48) + rest) == Select(pen.(bg := Some(v)), rest)
  {
    RgbBytes(v);
    SelectRgb(pen, v / 0x100 / 0x100 % 0x100, v / 0x100 % 0x100, v % 0x100, rest);
  }

  lemma SelectForeground(pen: Pen, c: Color, rest: seq<nat>)
    requires ValidColor(c)
    ensures Select(pen, ColorNumbers(c, 39, 38) + rest) == Select(pen.(fg := ColorOf(c)), rest)
  {
    if c.Rgb? { SelectRgbColor(pen, c.value, rest); } else { SelectDefault(pen, 39, rest); }
  }

  lemma SelectBackground(pen: Pen, c: Color, rest: seq<nat>)
    requires ValidColor(c)
    ensures Select(pen, ColorNumbers(c, 49, 48) + rest) == Select(pen.(bg := ColorOf(c)), rest)
  {
    if c.Rgb? { SelectRgbColor(pen, c.value, rest); } else { SelectDefault(pen, 49, rest); }
  }

  lemma SelectColors(pen: Pen, fg: Color, bg: Color)
    requires ValidColor(fg) && ValidColor(bg)
    ensures Select(pen, ColorNumbers(fg, 39, 38) + ColorNumbers(bg, 49, 48))
         == pen.(fg := ColorOf(fg), bg := ColorOf(bg))
  {
    SelectForeground(pen, fg, ColorNumbers(bg, 49, 48));
    SelectBackground(pen.(fg := ColorOf(fg)), bg, []);
    ConcatNil(ColorNumbers(bg, 49, 48));
  }

  // Single-number parameters take effect one after the other.
  lemma {:induction false} SelectConcat(pen: Pen, ns: seq<nat>, rest: seq<nat>)
    requires forall n <- ns :: n < 38
    ensures Select(pen, ns + rest) == Select(Select(pen, ns), rest)
    decreases |ns|
  {
    if ns == [] {
      assert ns + rest == rest;
    } else {
      assert ns[0] in ns && forall n <- ns[1..] :: n in ns;
      CutFirst(ns, rest, 1);
      SelectConcat(SelectOne(pen, ns[0]), ns[1..], rest);
    }
  }

  lemma SelectSnoc(pen: Pen, ns: seq<nat>, n: nat)
    requires (forall m <- ns :: m < 38) && n < 38
    ensures Select(pen, ns + [n]) == SelectOne(Select(pen, ns), n)
    ensures forall m <- ns + [n] :: m < 38
  {
    SelectConcat(pen, ns, [n]);
    SelectAlone(Select(pen, ns), n);
  }

  lemma SelectAlone(pen: Pen, n: nat)
    requires n < 38
    ensures Select(pen, [n]) == SelectOne(pen, n)
  {
    assert [n][1..] == [];
  }

  lemma SelectAttributes(pen: Pen, g: Glyph)
    ensures forall n <- AttributeNumbers(g) :: n < 38
    ensures Select(pen, AttributeNumbers(g)) == PenOf(g, pen).(fg := pen.fg, bg := pen.bg)
  {
    var s1 := [Switch(g.reverse, 7, 27)];
    var s2 := s1 + [Switch(g.underline, 4, 24)];
    var s3 := s2 + [Switch(g.bold, 1, 22)];
    var s4 := s3 + [Switch(g.italic, 3, 23)];
    var s5 := s4 + [Switch(g.blink, 5, 25)];
    SelectAlone(pen, Switch(g.reverse, 7, 27));
    SelectSnoc(pen, s1, Switch(g.underline, 4, 24));
    SelectSnoc(pen, s2, Switch(g.bold, 1, 22));
    SelectSnoc(pen, s3, Switch(g.italic, 3, 23));
    SelectSnoc(pen, s4, Switch(g.blink, 5, 25));
    if g.faint { SelectSnoc(pen, s5, 2); }
  }

  /** A terminal that reads a glyph's style takes on exactly that pen. */
  lemma SelectSgr(pen: Pen, g: Glyph)
    requires ValidGlyph(g)
    ensures Select(pen, SgrNumbers(g)) == PenOf(g, pen)
  {
    var f, b := ColorNumbers(g.fg, 39, 38), ColorNumbers(g.bg, 49, 48);
    ConcatAssoc(AttributeNumbers(g), f, b);
    SelectAttributes(pen, g);
    SelectConcat(pen, AttributeNumbers(g), f + b);
    SelectColors(PenOf(g, pen).(fg := pen.fg, bg := pen.bg), g.fg, g.bg);
  }

  lemma InterpretSequence(numbers: string, rest: string, pen: Pen)
    requires AllParams(numbers)
    ensures Interpret([ESC, '['] + numbers + "m" + rest, pen) == Interpret(rest, Select(pen, ReadNumbers(numbers, 0)))
  {
    var s, n := [ESC, '['] + numbers + "m" + rest, 3 + |numbers|;
    forall k | 2 <= k < n - 1 ensures IsParam(s[k]) { assert s[k] == numbers[k - 2]; }
    ParamEndAt(s, 2, n - 1);
    assert s[2..n - 1] == numbers && s[n..] == rest;
  }

  lemma InterpretSgr(g: Glyph, rest: string, pen: Pen)
    requires ValidGlyph(g)
    ensures Interpret(Sgr(g) + rest, pen) == Interpret(rest, PenOf(g, pen))
  {
    ReadUndoesJoin(SgrNumbers(g));
    InterpretSequence(JoinNumbers(SgrNumbers(g)), rest, pen);
    SelectSgr(pen, g);
  }

  // ------------------------------------------------------------ whole rows

  // Each cell drawn with the pen its style leaves.
  function Drawn(cells: seq<Glyph>, pen: Pen): seq<Shown> {
    if cells == [] then [] else
    var next := PenOf(cells[0], pen);
    [Shown(ShownChar(cells[0]), next)] + Drawn(cells[1..], next)
  }

  // The printed style determines the pen, so leaving out a repeated one changes nothing.
  lemma SameStyleSamePen(a: Glyph, b: Glyph, pen: Pen)
    requires ValidGlyph(a) && ValidGlyph(b) && Sgr(a) == Sgr(b)
    ensures PenOf(b, PenOf(a, pen)) == PenOf(a, pen)
  {
    var x, y := JoinNumbers(SgrNumbers(a)), JoinNumbers(SgrNumbers(b));
    assert Sgr(a)[2..|Sgr(a)| - 1] == x && Sgr(b)[2..|Sgr(b)| - 1] == y;
    ReadUndoesJoin(SgrNumbers(a));
    ReadUndoesJoin(SgrNumbers(b));
    SelectSgr(PenOf(a, pen), a);
    SelectSgr(PenOf(a, pen), b);
  }

  lemma {:induction false} InterpretLine(cells: seq<Glyph>, style: string, pen: Pen)
    requires forall g <- cells :: ValidGlyph(g)
    requires style == "" || exists g, before :: ValidGlyph(g) && style == Sgr(g) && pen == PenOf(g, before)
    ensures Interpret(LineFrom(cells, style), pen).cells == Drawn(cells, pen)
  {
    if cells != [] {
      var g, next := cells[0], Sgr(cells[0]);
      var rest := LineFrom(cells[1..], next);
      var text := [ShownChar(g)] + rest;
      InterpretLine(cells[1..], next, PenOf(g, pen));
      assert text[1..] == rest;
      if next != style {
        ConcatAssoc(next, [ShownChar(g)], rest);
        InterpretSgr(g, text, pen);
      } else {
        var a, before :| ValidGlyph(a) && style == Sgr(a) && pen == PenOf(a, before);
        SameStyleSamePen(a, g, before);
        assert "" + [ShownChar(g)] == [ShownChar(g)];
      }
    }
  }

  /** The look of a cell: its character, where NUL is a blank, its attributes and its 24-bit colours. */
  function Look(g: Glyph): Shown {
    Shown(if g.symbol == '\0' then ' ' else g.symbol,
          Pen(g.reverse, g.underline, g.bold, g.italic, g.blink, g.faint,
              match g.fg case Rgb(v) => Some(v) case _ => None, match g.bg case Rgb(v) => Some(v) case _ => None))
  }

  function Looks(cells: seq<Glyph>): (looks: seq<Shown>)
    ensures |looks| == |cells|
  {
    if cells == [] then [] else [Look(cells[0])] + Looks(cells[1..])
  }

  /** A faint pen meets a cell that is bold but not faint, whose style does not switch faint off. */
  predicate FaintLeaks(cells: seq<Glyph>, faint: bool) {
    cells != [] && ((faint && cells[0].bold && !cells[0].faint) || FaintLeaks(cells[1..], cells[0].faint))
  }

  lemma {:induction false} DrawnIsLooks(cells: seq<Glyph>, pen: Pen)
    ensures Drawn(cells, pen) == Looks(cells) <==> !FaintLeaks(cells, pen.faint)
  {
    if cells != [] {
      var g, next := cells[0], PenOf(cells[0], pen);
      assert Drawn(cells, pen)[0] == Shown(ShownChar(g), next) && Looks(cells)[0] == Look(g);
      if next.faint == g.faint {
        DrawnIsLooks(cells[1..], next);
        assert Drawn(cells, pen)[1..] == Drawn(cells[1..], next) && Looks(cells)[1..] == Looks(cells[1..]);
      }
    }
  }

  /** A terminal that reads a row, with any pen, shows every printed cell exactly as it looks if and only if no
      bold cell that is not faint directly follows a faint one (or comes first, on a faint pen). */
  lemma RowRoundTrip(cells: seq<Glyph>, pen: Pen)
    requires forall g <- cells :: ValidGlyph(g)
    ensures Interpret(Line(cells), pen).cells == Looks(Printed(cells)) <==> !FaintLeaks(Printed(cells), pen.faint)
  {
    NonDummyMembers(cells[..EndColumn(cells)]);
    InterpretLine(Printed(cells), "", pen);
    DrawnIsLooks(Printed(cells), pen);
  }

  lemma {:induction false} NonDummyMembers(cells: seq<Glyph>)
    ensures forall g :: g in NonDummy(cells) <==> g in cells && !g.wideDummy
  {
    if cells != [] { NonDummyMembers(cells[1..]); }
  }

  /** A faint cell and then a bold one that is not: the second is shown faint. */
  lemma FaintThenBoldLeaks(a: Glyph, b: Glyph, pen: Pen)
    requires ValidGlyph(a) && ValidGlyph(b) && !a.wideDummy && !b.wideDummy && a.faint && b.bold && !b.faint
    ensures Interpret(Line([a, b]), pen).cells != [Look(a), Look(b)]
  {
    assert [a, b][1] == b && KeepsLineOpen(b) && EndColumn([a, b]) == 2 && [a, b][..2] == [a, b];
    assert [a, b][1..] == [b] && [b][1..] == [];
    assert NonDummy([b]) == [b] && NonDummy([a, b]) == [a] + NonDummy([a, b][1..]);
    assert Printed([a, b]) == [a, b];
    assert Looks([a, b]) == [Look(a), Look(b)];
    RowRoundTrip([a, b], pen);
  }

  lemma {:induction false} NoFaintNoLeak(cells: seq<Glyph>)
    requires forall g <- cells :: !g.faint
    ensures !FaintLeaks(cells, false)
  {
    if cells != [] { NoFaintNoLeak(cells[1..]); }
  }

  /** In particular rows without faint cells always come out right on a pen that is not faint. */
  lemma PlainRowRoundTrip(cells: seq<Glyph>, pen: Pen)
    requires (forall g <- cells :: ValidGlyph(g) && !g.faint) && !pen.faint
    ensures Interpret(Line(cells), pen).cells == Looks(Printed(cells))
  {
    NonDummyMembers(cells[..EndColumn(cells)]);
    NoFaintNoLeak(Printed(cells));
    RowRoundTrip(cells, pen);
  }

  /** Such a row shows, cell by cell, what is in its printed cells. */
  lemma PlainRowShows(cells: seq<Glyph>, pen: Pen, i: nat)
    requires (forall g <- cells :: ValidGlyph(g) && !g.faint) && !pen.faint && i < |Printed(cells)|
    ensures var shown := Interpret(Line(cells), pen).cells;
      && |shown| == |Printed(cells)|
      && var g := Printed(cells)[i];
         && (g.symbol == '\0' ==> shown[i].symbol == ' ')
         && (g.symbol != '\0' ==> shown[i].symbol == g.symbol)
         && shown[i].pen.reverse == g.reverse && shown[i].pen.underline == g.underline
         && shown[i].pen.bold == g.bold && shown[i].pen.italic == g.italic
         && shown[i].pen.blink == g.blink && !shown[i].pen.faint
         && (g.fg.Rgb? ==> shown[i].pen.fg == Some(g.fg.value)) && (!g.fg.Rgb? ==> shown[i].pen.fg == None)
         && (g.bg.Rgb? ==> shown[i].pen.bg == Some(g.bg.value)) && (!g.bg.Rgb? ==> shown[i].pen.bg == None)
  {
    NonDummyMembers(cells[..EndColumn(cells)]);
    assert Printed(cells)[i] in Printed(cells);
    PlainRowRoundTrip(cells, pen);
    LooksAt(Printed(cells), i);
  }

  lemma {:induction false} LooksAt(cells: seq<Glyph>, i: nat)
    requires i < |cells|
    ensures Looks(cells)[i] == Look(cells[i])
  {
    if i > 0 { LooksAt(cells[1..], i - 1); }
  }

  /** The printed cells are those before the end that are no wide dummies, in their order. */
  lemma {:induction false} NonDummyConcat(a: seq<Glyph>, b: seq<Glyph>)
    ensures NonDummy(a + b) == NonDummy(a) + NonDummy(b)
    ensures |a| == 1 ==> NonDummy(a) == if a[0].wideDummy then [] else a
  {
    if |a| == 1 { assert a[1..] == [] && a == [a[0]]; }
    if a == [] {
      ConcatNil(b);
      ConcatNil(NonDummy(b));
    } else {
      CutFirst(a, b, 1);
      NonDummyConcat(a[1..], b);
      ConcatAssoc(if a[0].wideDummy then [] else [a[0]], NonDummy(a[1..]), NonDummy(b));
    }
  }

  /** A cell is left out at the end exactly if it and all after it are dummies or unmarked blanks in default colours. */
  lemma TrimmedIff(cells: seq<Glyph>, k: nat)
    requires k < |cells|
    ensures EndColumn(cells) <= k <==> forall j :: k <= j < |cells| ==>
      cells[j].wideDummy
      || ((cells[j].symbol == '\0' || cells[j].symbol == ' ') && cells[j].fg == DefaultFG && cells[j].bg == DefaultBG
          && !cells[j].reverse && !cells[j].underline && !cells[j].bold && !cells[j].italic && !cells[j].blink
          && !cells[j].faint)
  {
    if EndColumn(cells) <= k {
      forall j | k <= j < |cells| ensures !KeepsLineOpen(cells[j]) { }
    } else {
      assert KeepsLineOpen(cells[EndColumn(cells) - 1]);
    }
  }

  // A run of cells in the style that is already set is printed without any sequence.
  lemma {:induction false} SameStyleIsPlain(cells: seq<Glyph>, style: string)
    requires forall g <- cells :: Sgr(g) == style
    ensures |LineFrom(cells, style)| == |cells|
  {
    if cells != [] {
      assert cells[0] in cells;
      SameStyleIsPlain(cells[1..], style);
    }
  }

  /** Neighbouring cells of one style share the sequence printed before the first of them. */
  lemma OneSequenceForOneStyle(cells: seq<Glyph>, style: string)
    requires cells != [] && (forall g <- cells :: Sgr(g) == Sgr(cells[0])) && style != Sgr(cells[0])
    ensures |LineFrom(cells, style)| == |Sgr(cells[0])| + |cells|
  {
    SameStyleIsPlain(cells[1..], Sgr(cells[0]));
  }

  /** The sequence of an unmarked cell in default colours, and of the marks it can have. */
  lemma StyleNumbers(symbol: char, v: nat)
    ensures SgrNumbers(Glyph(symbol, false, false, false, false, false, false, false, DefaultFG, DefaultBG))
         == [27, 24, 22, 23, 25, 39, 49]
    ensures SgrNumbers(Glyph(symbol, true, true, true, true, true, true, false, Rgb(v), Rgb(v)))
         == [7, 4, 1, 3, 5, 2, 38, 2, v / 0x100 / 0x100 % 0x100, v / 0x100 % 0x100, v % 0x100,
             48, 2, v / 0x100 / 0x100 % 0x100, v / 0x100 % 0x100, v % 0x100]
  {
  }

  /** What is left out at the end of a row is the second half of a wide character or a plain blank. */
  lemma TrimmedCellsAreBlank(cells: seq<Glyph>, k: nat)
    requires EndColumn(cells) <= k < |cells|
    ensures cells[k].wideDummy
            || Look(cells[k]) == Shown(' ', Pen(false, false, false, false, false, false, None, None))
  {
  }
}
