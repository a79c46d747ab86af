/** printChar of src/neonapp.cpp:375-411 as a pure step, and what it puts on
    a terminal.  The printer remembers which colour and highlight codes it
    last wrote (printedColor_, printedHighlight_; None for the null pointer)
    and writes a code only when the selection differs from it, never
    highlights the first byte of a line, and after a newline trusts only the
    reset codes, because some pagers reset the attributes at a newline. */
module Render {
  import opened Colors
  import opened Wrappers

  /** What printChar writes: an SGR colour code, an inverse-video code or a byte. */
  datatype Token = ColorCode(color: Color) | HighlightCode(highlight: Highlight) | Byte(ch: char)

  /** The printer fields of NeonApp. */
  datatype Printer = Printer(selectedColor: Color, selectedHighlight: Highlight,
                             printedColor: Option<Color>, printedHighlight: Option<Highlight>,
                             lineStart: bool, lineIndent: bool)

  /** The state the NeonApp constructor sets up (src/neonapp.cpp:75-93). */
  const Initial: Printer := Printer(Reset, HighlightReset, None, None, true, true)

  datatype Printed = Printed(printer: Printer, tokens: seq<Token>)

  /** printChar(ch). */
  function PrintChar(p: Printer, ch: char): (r: Printed)
    ensures |r.tokens| >= 1 && r.tokens[|r.tokens| - 1] == Byte(ch)
    ensures ch == '\n' ==> r.tokens == [Byte('\n')] && r.printer.lineStart
    ensures ch != '\n' ==>
              && !r.printer.lineStart
              && (ColorCode(p.selectedColor) in r.tokens <==> p.printedColor != Some(p.selectedColor))
              && (p.lineStart ==> HighlightCode(On) !in r.tokens)
    ensures r.printer.selectedColor == p.selectedColor && r.printer.selectedHighlight == p.selectedHighlight
  {
    if ch == '\n' then
      Printed(p.(printedHighlight := if p.printedHighlight == Some(HighlightReset) then p.printedHighlight else None,
                 printedColor := if p.printedColor == Some(Reset) then p.printedColor else None,
                 lineStart := true, lineIndent := true),
              [Byte('\n')])
    else
      Printed(p.(printedColor := Some(p.selectedColor), printedHighlight := Some(Wanted(p)),
                 lineStart := false, lineIndent := p.lineStart || (p.lineIndent && (ch == ' ' || ch == '\t'))),
              ColorPart(p) + HighlightPart(p) + [Byte(ch)])
  }

  /** The colour code printChar writes before a byte: the selected colour
      unless it is the one last written. */
  function ColorPart(p: Printer): seq<Token>
  {
    if p.printedColor != Some(p.selectedColor) then [ColorCode(p.selectedColor)] else []
  }

  /** The highlight a byte gets: off for the first byte of a line (so that
      leading whitespace is never inverted), the selected one elsewhere. */
  function Wanted(p: Printer): Highlight
  {
    if p.lineStart then Off else p.selectedHighlight
  }

  /** The highlight code printChar writes before a byte, unless it is the
      one last written. */
  function HighlightPart(p: Printer): seq<Token>
  {
    if p.printedHighlight != Some(Wanted(p)) then [HighlightCode(Wanted(p))] else []
  }

  /** printChar over each byte of `s` in turn. */
  function Print(p: Printer, s: seq<char>): Printed
    decreases |s|
  {
    if s == [] then Printed(p, [])
    else
      var first := PrintChar(p, s[0]);
      var rest := Print(first.printer, s[1..]);
      Printed(rest.printer, first.tokens + rest.tokens)
  }

  /** Printing a concatenation is printing its parts one after the other. */
  lemma {:induction false} PrintAppend(p: Printer, x: seq<char>, y: seq<char>)
    ensures var rx := Print(p, x);
      var ry := Print(rx.printer, y);
      Print(p, x + y) == Printed(ry.printer, rx.tokens + ry.tokens)
    decreases |x|
  {
    if x == [] {
      assert x + y == y;
    } else {
      var first := PrintChar(p, x[0]);
      assert (x + y)[0] == x[0] && (x + y)[1..] == x[1..] + y;
      PrintAppend(first.printer, x[1..], y);
      var rx := Print(first.printer, x[1..]);
      var ry := Print(rx.printer, y);
      AppendAssoc(first.tokens, rx.tokens, ry.tokens);
    }
  }

  /** Printing one byte is one printChar. */
  lemma PrintOne(p: Printer, ch: char)
    ensures Print(p, [ch]) == PrintChar(p, ch)
  {
    assert [ch][1..] == [];
    assert PrintChar(p, ch).tokens + [] == PrintChar(p, ch).tokens;
  }

  // ----- A terminal, as the reference the coalescing is judged against -----

  /** The attributes a terminal is drawing with. */
  datatype Term = Term(color: Color, highlight: Highlight)

  /** A byte as it appears on the screen. */
  datatype Cell = Cell(ch: char, color: Color, highlight: Highlight)

  /** The effect of one token.  "\33[m" is SGR 0, which also cancels
      inverse video; a pager that resets at a newline (`resets`) draws the
      next line with the default attributes. */
  function Apply(t: Term, tok: Token, resets: bool): Term
  {
    match tok
    case ColorCode(c) => if c == Reset then Term(Reset, Off) else t.(color := c)
    case HighlightCode(h) => t.(highlight := h)
    case Byte(ch) => if ch == '\n' && resets then Term(Reset, Off) else t
  }

  /** The terminal after `toks`. */
  function Final(t: Term, toks: seq<Token>, resets: bool): Term
    decreases |toks|
  {
    if toks == [] then t else Final(Apply(t, toks[0], resets), toks[1..], resets)
  }

  /** The bytes other than newlines that `toks` puts on the screen, with
      the attributes they are drawn with. */
  function Cells(t: Term, toks: seq<Token>, resets: bool): seq<Cell>
    decreases |toks|
  {
    if toks == [] then []
    else
      (if toks[0].Byte? && toks[0].ch != '\n' then [Cell(toks[0].ch, t.color, t.highlight)] else [])
      + Cells(Apply(t, toks[0], resets), toks[1..], resets)
  }

  /** What the program means to show for `s`: every byte in the selected
      colour, highlighted as selected except the first byte of a line. */
  function Painted(s: seq<char>, c: Color, h: Highlight, atStart: bool): seq<Cell>
    decreases |s|
  {
    if s == [] then []
    else if s[0] == '\n' then Painted(s[1..], c, h, true)
    else [Cell(s[0], c, if atStart then Off else h)] + Painted(s[1..], c, h, false)
  }

  /** The printer's memory is right about the terminal wherever it is not null. */
  predicate Coherent(p: Printer, t: Term)
  {
    (p.printedColor.Some? ==> t.color == p.printedColor.value)
    && (p.printedHighlight.Some? ==> t.highlight == p.printedHighlight.value)
  }

  /** The selection printChar can draw faithfully: SGR 0 cancels inverse
      video, so highlighting in the reset colour is not one of them. */
  predicate Drawable(p: Printer)
  {
    !(p.selectedColor == Reset && p.selectedHighlight == On)
  }

  lemma {:induction false} CellsAppend(t: Term, x: seq<Token>, y: seq<Token>, resets: bool)
    ensures Cells(t, x + y, resets) == Cells(t, x, resets) + Cells(Final(t, x, resets), y, resets)
    ensures Final(t, x + y, resets) == Final(Final(t, x, resets), y, resets)
    decreases |x|
  {
    if x == [] {
      assert x + y == y;
    } else {
      var t1 := Apply(t, x[0], resets);
      var head := if x[0].Byte? && x[0].ch != '\n' then [Cell(x[0].ch, t.color, t.highlight)] else [];
      assert (x + y)[0] == x[0] && (x + y)[1..] == x[1..] + y;
      assert Cells(t, x + y, resets) == head + Cells(t1, x[1..] + y, resets);
      assert Final(t, x + y, resets) == Final(t1, x[1..] + y, resets);
      CellsAppend(t1, x[1..], y, resets);
      AppendAssoc(head, Cells(t1, x[1..], resets), Cells(Final(t1, x[1..], resets), y, resets));
    }
  }

  /** The codes printChar writes before a byte other than a newline. */
  lemma CodesReach(p: Printer, t: Term, ch: char, resets: bool)
    requires Coherent(p, t) && Drawable(p) && ch != '\n'
    ensures var r := PrintChar(p, ch);
      var toks := r.tokens[..|r.tokens| - 1];
      Cells(t, toks, resets) == []
      && Final(t, toks, resets) == Term(p.selectedColor, Wanted(p))
      && Coherent(r.printer, Final(t, toks, resets))
  {
    var r := PrintChar(p, ch);
    var cc := ColorPart(p);
    var hc := HighlightPart(p);
    assert r.tokens == (cc + hc) + [Byte(ch)];
    assert r.tokens[..|r.tokens| - 1] == cc + hc;
    CellsAppend(t, cc, hc, resets);
    var t1 := ColorReaches(p, t, resets);
    HighlightReaches(p, t1, resets);
  }

  /** After the colour part the terminal shows the selected colour; its
      highlight is still the remembered one unless the colour was "\33[m". */
  lemma ColorReaches(p: Printer, t: Term, resets: bool) returns (t1: Term)
    requires Coherent(p, t) && Drawable(p)
    ensures t1 == Final(t, ColorPart(p), resets) && Cells(t, ColorPart(p), resets) == []
    ensures t1.color == p.selectedColor
    ensures p.printedHighlight == Some(Wanted(p)) ==> t1.highlight == Wanted(p)
  {
    var cc := ColorPart(p);
    t1 := Final(t, cc, resets);
    if cc != [] {
      assert cc[1..] == [];
      assert Final(Apply(t, cc[0], resets), cc[1..], resets) == Apply(t, cc[0], resets);
    }
  }

  /** After the highlight part the terminal shows the wanted highlight. */
  lemma HighlightReaches(p: Printer, t1: Term, resets: bool)
    requires t1.color == p.selectedColor
    requires p.printedHighlight == Some(Wanted(p)) ==> t1.highlight == Wanted(p)
    ensures Final(t1, HighlightPart(p), resets) == Term(p.selectedColor, Wanted(p))
    ensures Cells(t1, HighlightPart(p), resets) == []
  {
    var hc := HighlightPart(p);
    if hc != [] {
      assert hc[1..] == [];
    }
  }

  /** One printChar draws its byte with the selected colour, unhighlighted
      at the start of a line and with the selected highlight elsewhere, and
      the printer's memory stays right about the terminal. */
  lemma PrintCharShows(p: Printer, t: Term, ch: char, resets: bool)
    requires Coherent(p, t) && Drawable(p)
    ensures var r := PrintChar(p, ch);
      Cells(t, r.tokens, resets) == Painted([ch], p.selectedColor, p.selectedHighlight, p.lineStart)
      && Coherent(r.printer, Final(t, r.tokens, resets))
  {
    var r := PrintChar(p, ch);
    assert [ch][1..] == [];
    if ch == '\n' {
      assert r.tokens[1..] == [];
    } else {
      var toks := r.tokens[..|r.tokens| - 1];
      CodesReach(p, t, ch, resets);
      assert r.tokens == toks + [Byte(ch)];
      CellsAppend(t, toks, [Byte(ch)], resets);
      assert [Byte(ch)][1..] == [];
    }
  }

  /** The whole-stream guarantee: from a state whose memory is right about
      the terminal, printing `s` draws every byte other than a newline in
      the selected colour, highlighted as selected except the first byte of
      each line, whether or not the pager resets at newlines. */
  lemma {:induction false} PrintShows(p: Printer, t: Term, s: seq<char>, resets: bool)
    requires Coherent(p, t) && Drawable(p)
    ensures var r := Print(p, s);
      Cells(t, r.tokens, resets) == Painted(s, p.selectedColor, p.selectedHighlight, p.lineStart)
      && Coherent(r.printer, Final(t, r.tokens, resets))
    decreases |s|
  {
    if s != [] {
      var first := PrintChar(p, s[0]);
      var rest := Print(first.printer, s[1..]);
      var t1 := Final(t, first.tokens, resets);
      PrintCharShows(p, t, s[0], resets);
      PrintShows(first.printer, t1, s[1..], resets);
      CellsAppend(t, first.tokens, rest.tokens, resets);
      PaintedCons(s, p.selectedColor, p.selectedHighlight, p.lineStart);
    }
  }

  lemma PaintedCons(s: seq<char>, c: Color, h: Highlight, atStart: bool)
    requires s != []
    ensures Painted(s, c, h, atStart) == Painted([s[0]], c, h, atStart) + Painted(s[1..], c, h, s[0] == '\n')
  {
    assert [s[0]][1..] == [];
  }

  /** The constructor's null memory is right about any terminal. */
  lemma InitialCoherent(t: Term)
    ensures Coherent(Initial, t) && Drawable(Initial)
  {
  }

  /** Why Drawable is needed: with the reset colour selected and the
      highlight on, a remembered inverse-video code survives the "\33[m"
      that cancels it, and the byte appears without inverse video. */
  lemma ResetCancelsHighlight()
    ensures var p := Printer(Reset, On, Some(Red), Some(On), false, false);
      var t := Term(Red, On);
      Coherent(p, t)
      && PrintChar(p, 'z').tokens == [ColorCode(Reset), Byte('z')]
      && Cells(t, PrintChar(p, 'z').tokens, false) == [Cell('z', Reset, Off)]
      && Painted(['z'], Reset, On, false) == [Cell('z', Reset, On)]
  {
    var p := Printer(Reset, On, Some(Red), Some(On), false, false);
    var toks := PrintChar(p, 'z').tokens;
    assert toks == [ColorCode(Reset), Byte('z')];
    assert toks[1..] == [Byte('z')] && toks[1..][1..] == [];
    assert ['z'][1..] == [];
    assert Painted(['z'], Reset, On, false) == [Cell('z', Reset, On)] + Painted([], Reset, On, false);
    assert Cells(Term(Red, On), toks, false) == [] + Cells(Term(Reset, Off), toks[1..], false);
  }

  function ColorCodes(toks: seq<Token>): nat
    decreases |toks|
  {
    if toks == [] then 0 else (if toks[0].ColorCode? then 1 else 0) + ColorCodes(toks[1..])
  }

  function HighlightCodes(toks: seq<Token>): nat
    decreases |toks|
  {
    if toks == [] then 0 else (if toks[0].HighlightCode? then 1 else 0) + HighlightCodes(toks[1..])
  }

  lemma CodesAppend(x: seq<Token>, y: seq<Token>)
    ensures ColorCodes(x + y) == ColorCodes(x) + ColorCodes(y)
    ensures HighlightCodes(x + y) == HighlightCodes(x) + HighlightCodes(y)
    decreases |x|
  {
    if x == [] {
      assert x + y == y;
    } else {
      assert (x + y)[0] == x[0] && (x + y)[1..] == x[1..] + y;
      CodesAppend(x[1..], y);
    }
  }

  /** The highlight codes a line can still cost: one to reach the wanted
      highlight, and at a line start one more for the selection after it. */
  function HighlightBudget(p: Printer): nat
  {
    (if p.printedHighlight == Some(Wanted(p)) then 0 else 1)
    + (if p.lineStart && p.selectedHighlight != Off then 1 else 0)
  }

  /** The codes one printChar writes before a byte other than a newline. */
  lemma CodesOfChar(p: Printer, ch: char)
    requires ch != '\n'
    ensures ColorCodes(PrintChar(p, ch).tokens) == (if p.printedColor == Some(p.selectedColor) then 0 else 1)
    ensures HighlightCodes(PrintChar(p, ch).tokens) == (if p.printedHighlight == Some(Wanted(p)) then 0 else 1)
  {
    var cc := ColorPart(p);
    var hc := HighlightPart(p);
    assert PrintChar(p, ch).tokens == (cc + hc) + [Byte(ch)];
    CodesAppend(cc + hc, [Byte(ch)]);
    CodesAppend(cc, hc);
    CodesSingle(Byte(ch));
    if cc != [] {
      CodesSingle(ColorCode(p.selectedColor));
    }
    if hc != [] {
      CodesSingle(HighlightCode(Wanted(p)));
    }
  }

  lemma CodesSingle(tok: Token)
    ensures ColorCodes([tok]) == (if tok.ColorCode? then 1 else 0)
    ensures HighlightCodes([tok]) == (if tok.HighlightCode? then 1 else 0)
  {
    assert [tok][1..] == [];
  }

  /** The coalescing: printing a piece of a line under one selection writes
      at most one colour code (none when that colour is already on the
      terminal) and at most two highlight codes (Off for the first byte,
      then the selection). */
  lemma {:induction false} LineCoalesces(p: Printer, s: seq<char>)
    requires '\n' !in s
    ensures ColorCodes(Print(p, s).tokens) <= (if p.printedColor == Some(p.selectedColor) then 0 else 1)
    ensures HighlightCodes(Print(p, s).tokens) <= HighlightBudget(p)
    decreases |s|
  {
    if s != [] {
      assert s[0] in s;
      assert forall k :: 0 <= k < |s[1..]| ==> s[1..][k] == s[k + 1];
      var first := PrintChar(p, s[0]);
      var rest := Print(first.printer, s[1..]);
      LineCoalesces(first.printer, s[1..]);
      CodesAppend(first.tokens, rest.tokens);
      CodesOfChar(p, s[0]);
    }
  }

  /** outLineIndent_ after a piece of a line printed from its start: true
      exactly when every byte after the first is a space or a tab. */
  lemma {:induction false} IndentTracksBlanks(p: Printer, s: seq<char>)
    requires '\n' !in s && s != []
    requires p.lineStart
    ensures Print(p, s).printer.lineIndent <==> forall k :: 1 <= k < |s| ==> s[k] == ' ' || s[k] == '\t'
  {
    var first := PrintChar(p, s[0]);
    assert first.printer.lineIndent && !first.printer.lineStart;
    assert forall k :: 0 <= k < |s[1..]| ==> s[1..][k] == s[k + 1];
    IndentAfterStart(first.printer, s[1..]);
  }

  lemma {:induction false} IndentAfterStart(p: Printer, s: seq<char>)
    requires '\n' !in s && !p.lineStart
    ensures Print(p, s).printer.lineIndent <==> p.lineIndent && forall k :: 0 <= k < |s| ==> s[k] == ' ' || s[k] == '\t'
    decreases |s|
  {
    if s != [] {
      assert s[0] in s;
      assert forall k :: 0 <= k < |s[1..]| ==> s[1..][k] == s[k + 1];
      var first := PrintChar(p, s[0]);
      IndentAfterStart(first.printer, s[1..]);
    }
  }
}
