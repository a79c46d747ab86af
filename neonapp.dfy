/** The NeonApp class of src/neonapp.cpp: its line reader with the
    doubling buffer (183-213), the output routines setColor, setHighlight,
    printChar and outputBlock (229-234, 363-411), and outputDiff (316-360),
    which prints a pending removed/added block through printChar.
    Buffer positions are offsets into `buf`; the null pointer of
    blockRem_/blockAdd_ is None.  The output stream is `output`, the
    tokens printChar writes. */
module App {
  import opened Wrappers
  import opened Colors
  import opened Lines
  import opened Render
  import D = Directives
  import Engine

  /** The output calls outputDiff makes, carried out on a printer state:
      setColor and setHighlight select, outputBlock(from, to) prints the
      bytes of `text` in [from, to), printChar prints one byte.  The other
      calls are not NeonApp's and print nothing. */
  function PlayOne(p: Printer, call: D.Call, text: seq<char>): Printed
  {
    match call
    case SetColor(c) => Printed(p.(selectedColor := c), [])
    case SetHighlight(h) => Printed(p.(selectedHighlight := h), [])
    case PrintBlock(f, t) => if f <= t <= |text| then Print(p, text[f..t]) else Printed(p, [])
    case PrintChar(ch) => Render.PrintChar(p, ch)
    case _ => Printed(p, [])
  }

  function Play(p: Printer, calls: seq<D.Call>, text: seq<char>): Printed
    decreases |calls|
  {
    if calls == [] then Printed(p, [])
    else
      var first := PlayOne(p, calls[0], text);
      var rest := Play(first.printer, calls[1..], text);
      Printed(rest.printer, first.tokens + rest.tokens)
  }

  lemma {:induction false} PlayAppend(p: Printer, x: seq<D.Call>, y: seq<D.Call>, text: seq<char>)
    ensures var rx := Play(p, x, text);
      var ry := Play(rx.printer, y, text);
      Play(p, x + y, text) == Printed(ry.printer, rx.tokens + ry.tokens)
    decreases |x|
  {
    if x == [] {
      assert x + y == y;
    } else {
      var first := PlayOne(p, x[0], text);
      assert (x + y)[0] == x[0] && (x + y)[1..] == x[1..] + y;
      PlayAppend(first.printer, x[1..], y, text);
      var rx := Play(first.printer, x[1..], text);
      var ry := Play(rx.printer, y, text);
      AppendAssoc(first.tokens, rx.tokens, ry.tokens);
    }
  }

  /** The four calls of one turn of outputDiff's for-loop, carried out. */
  lemma PlayTurn(p: Printer, start: nat, s: D.Span, text: seq<char>)
    requires start <= s.from <= s.to <= |text|
    ensures var head := [D.SetHighlight(On), D.PrintBlock(start, s.from), D.SetHighlight(Off), D.PrintBlock(s.from, s.to)];
      var r1 := Print(p.(selectedHighlight := On), text[start..s.from]);
      var r2 := Print(r1.printer.(selectedHighlight := Off), text[s.from..s.to]);
      Play(p, head, text) == Printed(r2.printer, r1.tokens + r2.tokens)
  {
    var head := [D.SetHighlight(On), D.PrintBlock(start, s.from), D.SetHighlight(Off), D.PrintBlock(s.from, s.to)];
    var r1 := Print(p.(selectedHighlight := On), text[start..s.from]);
    var r2 := Print(r1.printer.(selectedHighlight := Off), text[s.from..s.to]);
    assert head[1..][1..][1..][1..] == [];
    assert Play(r2.printer, [], text) == Printed(r2.printer, []);
    assert Play(r1.printer.(selectedHighlight := Off), head[3..], text) == Printed(r2.printer, r2.tokens + []);
    assert head[3..] == head[1..][1..][1..];
    assert r2.tokens + [] == r2.tokens;
    assert Play(r1.printer, head[2..], text) == Printed(r2.printer, [] + r2.tokens);
    assert head[2..] == head[1..][1..];
    assert [] + r2.tokens == r2.tokens;
  }

  /** One turn of a side walk, carried out: the highlighted gap, the
      Block's side, then the rest of the walk. */
  lemma SideStep(p: Printer, ms: seq<Engine.Match>, i: nat, removed: bool, s: nat, end: nat, text: seq<char>)
    requires i < |ms|
    requires s <= D.SpanOf(ms[i], removed).from <= D.SpanOf(ms[i], removed).to <= |text|
    ensures var sp := D.SpanOf(ms[i], removed);
      var r1 := Print(p.(selectedHighlight := On), text[s..sp.from]);
      var r2 := Print(r1.printer.(selectedHighlight := Off), text[sp.from..sp.to]);
      var rest := Play(r2.printer, D.SideCalls(ms[i + 1..], removed, sp.to, end), text);
      Play(p, D.SideCalls(ms[i..], removed, s, end), text) == Printed(rest.printer, r1.tokens + (r2.tokens + rest.tokens))
  {
    var sp := D.SpanOf(ms[i], removed);
    var head := [D.SetHighlight(On), D.PrintBlock(s, sp.from), D.SetHighlight(Off), D.PrintBlock(sp.from, sp.to)];
    var r1 := Print(p.(selectedHighlight := On), text[s..sp.from]);
    var r2 := Print(r1.printer.(selectedHighlight := Off), text[sp.from..sp.to]);
    var tail := D.SideCalls(ms[i + 1..], removed, sp.to, end);
    D.SideFrom(ms, i, removed, s, end);
    PlayAppend(p, head, tail, text);
    PlayTurn(p, s, sp, text);
    AppendAssoc(r1.tokens, r2.tokens, Play(r2.printer, tail, text).tokens);
  }

  /** The calls after the last Block, carried out. */
  lemma PlayLast(p: Printer, start: nat, end: nat, text: seq<char>)
    requires start <= end <= |text|
    ensures var r := Print(p.(selectedHighlight := On), text[start..end]);
      Play(p, [D.SetHighlight(On), D.PrintBlock(start, end)], text) == Printed(r.printer, r.tokens)
  {
    var calls := [D.SetHighlight(On), D.PrintBlock(start, end)];
    var r := Print(p.(selectedHighlight := On), text[start..end]);
    assert calls[1..][1..] == [];
    assert Play(p.(selectedHighlight := On), calls[1..], text) == Printed(r.printer, r.tokens + []);
    assert r.tokens + [] == r.tokens && [] + r.tokens == r.tokens;
  }

  /** A one-sided block, carried out. */
  lemma PlayWhole(p: Printer, c: Color, start: nat, end: nat, text: seq<char>)
    requires start <= end <= |text|
    ensures Play(p, [D.SetColor(c), D.PrintBlock(start, end)], text) == Print(p.(selectedColor := c), text[start..end])
  {
    var calls := [D.SetColor(c), D.PrintBlock(start, end)];
    var r := Print(p.(selectedColor := c), text[start..end]);
    assert calls[1..][1..] == [];
    assert Play(p.(selectedColor := c), calls[1..], text) == Printed(r.printer, r.tokens + []);
    assert r.tokens + [] == r.tokens && [] + r.tokens == r.tokens;
  }

  /** A two-sided block, carried out: the removed side in the removed
      colour, the added side in the added colour, then the highlight off. */
  lemma PlayBoth(p: Printer, rem: nat, add: nat, line: nat, ms: seq<Engine.Match>, text: seq<char>)
    ensures var rx := Play(p.(selectedColor := LineDel), D.SideCalls(ms, true, rem, add), text);
      var ry := Play(rx.printer.(selectedColor := LineAdd), D.SideCalls(ms, false, add, line), text);
      Play(p, D.FlushCalls(Some(rem), Some(add), line, ms), text)
      == Printed(ry.printer.(selectedHighlight := Off), rx.tokens + ry.tokens)
  {
    var x := D.SideCalls(ms, true, rem, add);
    var y := D.SideCalls(ms, false, add, line);
    var rx := Play(p.(selectedColor := LineDel), x, text);
    var ry := Play(rx.printer.(selectedColor := LineAdd), y, text);
    var last := [D.SetHighlight(Off)];
    var afterX := [D.SetColor(LineAdd)] + (y + last);
    assert D.FlushCalls(Some(rem), Some(add), line, ms) == [D.SetColor(LineDel)] + (x + afterX);
    PlaySelectThen(p, D.SetColor(LineDel), x + afterX, text);
    PlayAppend(p.(selectedColor := LineDel), x, afterX, text);
    PlaySelectThen(rx.printer, D.SetColor(LineAdd), y + last, text);
    PlayAppend(rx.printer.(selectedColor := LineAdd), y, last, text);
    PlaySelect(ry.printer, D.SetHighlight(Off), text);
    assert ry.tokens + [] == ry.tokens;
  }

  /** A selecting call followed by others. */
  lemma PlaySelectThen(p: Printer, call: D.Call, rest: seq<D.Call>, text: seq<char>)
    requires call.SetColor? || call.SetHighlight?
    ensures Play(p, [call] + rest, text)
         == Play(if call.SetColor? then p.(selectedColor := call.color) else p.(selectedHighlight := call.highlight), rest, text)
  {
    assert ([call] + rest)[0] == call && ([call] + rest)[1..] == rest;
  }

  /** A selecting call prints nothing. */
  lemma PlaySelect(p: Printer, call: D.Call, text: seq<char>)
    requires call.SetColor? || call.SetHighlight?
    ensures Play(p, [call], text)
         == Printed(if call.SetColor? then p.(selectedColor := call.color) else p.(selectedHighlight := call.highlight), [])
  {
    assert [call][1..] == [];
  }

  lemma OrderedFrom(ms: seq<Engine.Match>, i: nat, removed: bool, start: nat, end: nat)
    requires i < |ms| && D.Ordered(D.Spans(ms[i..], removed), start, end)
    ensures var s := D.SpanOf(ms[i], removed);
      start <= s.from < s.to && D.Ordered(D.Spans(ms[i + 1..], removed), s.to, end)
  {
    assert ms[i..][0] == ms[i] && ms[i..][1..] == ms[i + 1..];
    assert D.Spans(ms[i..], removed)[1..] == D.Spans(ms[i + 1..], removed);
  }

  /** Where a side walk stands: carrying out its remaining calls from the
      printer `p`, after the tokens `o` already written, completes the walk
      `whole` that started after the tokens `o0`. */
  ghost predicate SideLeft(p: Printer, o: seq<Token>, ms: seq<Engine.Match>, removed: bool, s: nat, end: nat,
                           text: seq<char>, whole: Printed, o0: seq<Token>)
  {
    D.Ordered(D.Spans(ms, removed), s, end)
    && var rest := Play(p, D.SideCalls(ms, removed, s, end), text);
    rest.printer == whole.printer && o + rest.tokens == o0 + whole.tokens
  }

  /** One Block of a side walk printed: its gap highlighted, then its side. */
  lemma SideAdvance(p: Printer, o: seq<Token>, ms: seq<Engine.Match>, i: nat, removed: bool, s: nat, end: nat,
                    text: seq<char>, whole: Printed, o0: seq<Token>)
    requires i < |ms| && end <= |text| && SideLeft(p, o, ms[i..], removed, s, end, text, whole, o0)
    ensures s <= D.SpanOf(ms[i], removed).from <= D.SpanOf(ms[i], removed).to <= end
    ensures var sp := D.SpanOf(ms[i], removed);
      var r1 := Print(p.(selectedHighlight := On), text[s..sp.from]);
      var r2 := Print(r1.printer.(selectedHighlight := Off), text[sp.from..sp.to]);
      SideLeft(r2.printer, (o + r1.tokens) + r2.tokens, ms[i + 1..], removed, sp.to, end, text, whole, o0)
  {
    var sp := D.SpanOf(ms[i], removed);
    OrderedFrom(ms, i, removed, s, end);
    D.OrderedBounds(D.Spans(ms[i + 1..], removed), sp.to, end);
    SideStep(p, ms, i, removed, s, end, text);
    var r1 := Print(p.(selectedHighlight := On), text[s..sp.from]);
    var r2 := Print(r1.printer.(selectedHighlight := Off), text[sp.from..sp.to]);
    var rest := Play(r2.printer, D.SideCalls(ms[i + 1..], removed, sp.to, end), text);
    AppendAssoc4(o, r1.tokens, r2.tokens, rest.tokens);
  }

  /** The highlighted rest after the last Block completes the walk. */
  lemma SideEnd(p: Printer, o: seq<Token>, ms: seq<Engine.Match>, i: nat, removed: bool, s: nat, end: nat,
                text: seq<char>, whole: Printed, o0: seq<Token>)
    requires i == |ms| && end <= |text| && SideLeft(p, o, ms[i..], removed, s, end, text, whole, o0)
    ensures s <= end
    ensures var r := Print(p.(selectedHighlight := On), text[s..end]);
      r.printer == whole.printer && o + r.tokens == o0 + whole.tokens
  {
    assert ms[i..] == [];
    PlayLast(p, s, end, text);
  }

  /** The two side walks of a block with both sides, one after the other,
      carry out the whole of processBlock's calls. */
  lemma BothPlayed(p: Printer, out: seq<Token>, rem: nat, add: nat, line: nat, ms: seq<Engine.Match>,
                   text: seq<char>, q: Printer, o: seq<Token>)
    requires var rx := Play(p.(selectedColor := LineDel), D.SideCalls(ms, true, rem, add), text);
      var ry := Play(rx.printer.(selectedColor := LineAdd), D.SideCalls(ms, false, add, line), text);
      q == ry.printer.(selectedHighlight := Off) && o == (out + rx.tokens) + ry.tokens
    ensures var r := Play(p, D.FlushCalls(Some(rem), Some(add), line, ms), text);
      q == r.printer && o == out + r.tokens
  {
    PlayBoth(p, rem, add, line, ms, text);
    var rx := Play(p.(selectedColor := LineDel), D.SideCalls(ms, true, rem, add), text);
    var ry := Play(rx.printer.(selectedColor := LineAdd), D.SideCalls(ms, false, add, line), text);
    AppendAssoc(out, rx.tokens, ry.tokens);
  }

  class NeonApp {
    const input: seq<char>
    var pos: nat
    var eof: bool
    var buf: array<char>
    var bufLen: nat
    var bufSize: nat
    var line: nat
    var lineLen: nat
    var blockRem: Option<nat>
    var blockAdd: Option<nat>
    var outLineStart: bool
    var outLineIndent: bool
    var selectedColor: Color
    var selectedHighlight: Highlight
    var printedColor: Option<Color>
    var printedHighlight: Option<Highlight>
    var output: seq<Token>

    /** The buffer holds bufLen bytes of its bufSize; the current line is its
        last lineLen bytes; the stream position is within the input. */
    predicate Valid()
      reads this, buf
    {
      buf.Length == bufSize && 1 <= bufSize && bufLen <= bufSize
      && line + lineLen == bufLen && pos <= |input| && (eof ==> pos == |input|)
    }

    /** The printer fields as one value. */
    function State(): Printer
      reads this
    {
      Printer(selectedColor, selectedHighlight, printedColor, printedHighlight, outLineStart, outLineIndent)
    }

    constructor(input: seq<char>)
      ensures Valid() && this.input == input && pos == 0 && !eof
      ensures bufSize == InitialSize && bufLen == 0 && line == 0 && lineLen == 0
      ensures blockRem == None && blockAdd == None
      ensures State() == Initial && output == []
    {
      this.input := input;
      pos, eof := 0, false;
      bufLen, bufSize := 0, InitialSize;
      line, lineLen := 0, 0;
      blockRem, blockAdd := None, None;
      outLineStart, outLineIndent := true, true;
      selectedColor, selectedHighlight := Reset, HighlightReset;
      printedColor, printedHighlight := None, None;
      output := [];
      buf := new char[InitialSize];
    }

    /** The realloc of readLine: twice the size, the bytes kept. */
    method Double()
      requires buf.Length == bufSize && 1 <= bufSize
      modifies this`buf, this`bufSize
      ensures bufSize == 2 * old(bufSize) && buf.Length == bufSize && fresh(buf)
      ensures buf[..old(bufSize)] == old(buf[..])
    {
      var grown := new char[2 * bufSize];
      forall k | 0 <= k < bufSize {
        grown[k] := buf[k];
      }
      buf, bufSize := grown, 2 * bufSize;
    }

    /** One byte into the buffer, doubled first when it is full. */
    method Put(ch: char)
      requires buf.Length == bufSize && 1 <= bufSize && bufLen <= bufSize
      modifies this`buf, this`bufSize, this`bufLen, this`lineLen, buf
      ensures buf.Length == bufSize && bufLen <= bufSize && old(bufSize) <= bufSize
      ensures buf == old(buf) || fresh(buf)
      ensures bufLen == old(bufLen) + 1 && lineLen == old(lineLen) + 1
      ensures buf[..bufLen] == old(buf[..bufLen]) + [ch]
    {
      if bufLen == bufSize {
        Double();
      }
      buf[bufLen] := ch;
      bufLen, lineLen := bufLen + 1, lineLen + 1;
    }

    /** readLine: append the next line of the stream to the buffer, or the
        rest of the stream and the byte EOF leaves; false at end of file. */
    method ReadLine() returns (more: bool)
      requires Valid()
      modifies this`pos, this`eof, this`buf, this`bufSize, this`bufLen, this`line, this`lineLen, buf
      ensures Valid() && line == old(bufLen) && old(bufSize) <= bufSize
      ensures !old(eof) ==> var c := ReadChunk(input, old(pos));
        buf[..bufLen] == old(buf[..bufLen]) + c.text && pos == c.next && eof == c.atEof && more == !c.atEof
      ensures old(eof) ==> bufLen == old(bufLen) && pos == old(pos) && eof && !more
    {
      line, lineLen := bufLen, 0;
      if eof {
        return false;
      }
      ghost var pos0 := pos;
      ReadBytes();
      more := !eof;
      ChunkTaken(input, pos0, pos, eof);
    }

    /** The loop of readLine: bytes from the stream until a newline or the
        end of the input. */
    method ReadBytes()
      requires buf.Length == bufSize && 1 <= bufSize && bufLen <= bufSize && line + lineLen == bufLen
      requires !eof && pos <= |input|
      modifies this`pos, this`eof, this`buf, this`bufSize, this`bufLen, this`lineLen, buf
      ensures buf.Length == bufSize && bufLen <= bufSize && line + lineLen == bufLen && old(bufSize) <= bufSize
      ensures old(pos) <= pos <= NewlineFrom(input, old(pos)) + 1 && pos <= |input|
      ensures eof ==> pos == |input| && pos <= NewlineFrom(input, old(pos))
      ensures !eof ==> old(pos) < pos && input[pos - 1] == '\n'
      ensures buf[..bufLen] == old(buf[..bufLen]) + Taken(input, old(pos), pos, eof)
    {
      ghost var text0 := buf[..bufLen];
      while !eof
        invariant buf.Length == bufSize && 1 <= bufSize && bufLen <= bufSize && (buf == old(buf) || fresh(buf))
        invariant line + lineLen == bufLen && old(bufSize) <= bufSize
        invariant old(pos) <= pos <= NewlineFrom(input, old(pos)) && (eof ==> pos == |input|)
        invariant buf[..bufLen] == text0 + Taken(input, old(pos), pos, eof)
        decreases |input| - pos, !eof
      {
        TakenNext(text0, input, old(pos), pos);
        var ch;
        ch, pos, eof := Getc(input, pos).0, Getc(input, pos).1, pos == |input|;
        Put(ch);
        if ch == '\n' {
          return;
        }
      }
    }

    method SetColor(c: Color)
      modifies this`selectedColor
      ensures State() == old(State()).(selectedColor := c)
    {
      selectedColor := c;
    }

    method SetHighlight(h: Highlight)
      modifies this`selectedHighlight
      ensures State() == old(State()).(selectedHighlight := h)
    {
      selectedHighlight := h;
    }

    /** printChar: write the codes the terminal is missing, then the byte. */
    method PrintChar(ch: char)
      modifies this`outLineStart, this`outLineIndent, this`printedColor, this`printedHighlight, this`output
      ensures var r := Render.PrintChar(old(State()), ch);
        State() == r.printer && output == old(output) + r.tokens
    {
      if ch == '\n' {
        output := output + [Byte('\n')];
        if printedHighlight != Some(HighlightReset) {
          printedHighlight := None;
        }
        if printedColor != Some(Reset) {
          printedColor := None;
        }
        outLineStart, outLineIndent := true, true;
        return;
      }
      ghost var start := output;
      outLineIndent := outLineStart || (outLineIndent && (ch == ' ' || ch == '\t'));
      if printedColor != Some(selectedColor) {
        printedColor := Some(selectedColor);
        output := output + [ColorCode(selectedColor)];
      }
      ghost var colored := output;
      if outLineStart {
        if printedHighlight != Some(Off) {
          printedHighlight := Some(Off);
          output := output + [HighlightCode(Off)];
        }
      } else if printedHighlight != Some(selectedHighlight) {
        printedHighlight := Some(selectedHighlight);
        output := output + [HighlightCode(selectedHighlight)];
      }
      assert colored == start + ColorPart(old(State()));
      assert output == colored + HighlightPart(old(State()));
      output := output + [Byte(ch)];
      outLineStart := false;
      AppendAssoc(start, ColorPart(old(State())), HighlightPart(old(State())));
      AppendAssoc(start, ColorPart(old(State())) + HighlightPart(old(State())), [Byte(ch)]);
    }

    /** outputBlock: printChar over the bytes of [from, to). */
    method OutputBlock(from: nat, to: nat)
      requires from <= to <= buf.Length
      modifies this`outLineStart, this`outLineIndent, this`printedColor, this`printedHighlight, this`output
      ensures var r := Print(old(State()), buf[from..to]);
        State() == r.printer && output == old(output) + r.tokens
    {
      var b := from;
      assert buf[from..b] == [] && old(output) + [] == old(output);
      assert Print(State(), buf[from..b]) == Printed(State(), []);
      while b < to
        invariant from <= b <= to
        invariant State() == Print(old(State()), buf[from..b]).printer
        invariant output == old(output) + Print(old(State()), buf[from..b]).tokens
      {
        ghost var r := Print(old(State()), buf[from..b]);
        PrintAppend(old(State()), buf[from..b], [buf[b]]);
        PrintOne(r.printer, buf[b]);
        assert buf[from..b + 1] == buf[from..b] + [buf[b]];
        PrintChar(buf[b]);
        AppendAssoc(old(output), r.tokens, Render.PrintChar(r.printer, buf[b]).tokens);
        b := b + 1;
      }
    }

    /** One for-loop of outputDiff: from `start`, each Block's side preceded
        by the highlighted gap before it, then the highlighted rest up to `end`. */
    method OutputSide(ms: seq<Engine.Match>, removed: bool, start: nat, end: nat)
      requires D.Ordered(D.Spans(ms, removed), start, end) && end <= buf.Length
      modifies this`outLineStart, this`outLineIndent, this`printedColor, this`printedHighlight, this`output,
               this`selectedHighlight
      ensures var r := Play(old(State()), D.SideCalls(ms, removed, start, end), old(buf[..]));
        State() == r.printer && output == old(output) + r.tokens
    {
      ghost var text := buf[..];
      ghost var whole := Play(State(), D.SideCalls(ms, removed, start, end), text);
      var s := start;
      var i := 0;
      assert ms[i..] == ms;
      while i < |ms|
        invariant i <= |ms| && buf[..] == text && SideLeft(State(), output, ms[i..], removed, s, end, text, whole, old(output))
        decreases |ms| - i
      {
        var span := D.SpanOf(ms[i], removed);
        SideAdvance(State(), output, ms, i, removed, s, end, text, whole, old(output));
        OutputSpan(s, span.from, span.to);
        s := span.to;
        i := i + 1;
      }
      SideEnd(State(), output, ms, i, removed, s, end, text, whole, old(output));
      SetHighlight(On);
      OutputBlock(s, end);
    }

    /** One turn of outputDiff's for-loop: the gap [s, from) highlighted,
        then the Block's side [from, to) not. */
    method OutputSpan(s: nat, from: nat, to: nat)
      requires s <= from <= to <= buf.Length
      modifies this`outLineStart, this`outLineIndent, this`printedColor, this`printedHighlight, this`output,
               this`selectedHighlight
      ensures var r1 := Print(old(State()).(selectedHighlight := On), old(buf[s..from]));
        var r2 := Print(r1.printer.(selectedHighlight := Off), old(buf[from..to]));
        State() == r2.printer && output == (old(output) + r1.tokens) + r2.tokens
    {
      SetHighlight(On);
      OutputBlock(s, from);
      SetHighlight(Off);
      OutputBlock(from, to);
    }

    /** The part of outputDiff for a block with one side only. */
    method OutputOne(c: Color, start: nat)
      requires Valid() && start <= line <= bufLen
      modifies this`outLineStart, this`outLineIndent, this`printedColor, this`printedHighlight, this`output,
               this`selectedColor
      ensures var r := Play(old(State()), [D.SetColor(c), D.PrintBlock(start, line)], old(buf[..]));
        State() == r.printer && output == old(output) + r.tokens
    {
      PlayWhole(State(), c, start, line, buf[..]);
      assert buf[..][start..line] == buf[start..line];
      SetColor(c);
      OutputBlock(start, line);
    }

    /** The part of outputDiff for a block with both sides. */
    method OutputBoth(rem: nat, add: nat, ms: seq<Engine.Match>)
      requires Valid() && rem < add < line <= bufLen
      requires D.Ordered(D.Spans(ms, true), rem, add) && D.Ordered(D.Spans(ms, false), add, line)
      modifies this`outLineStart, this`outLineIndent, this`printedColor, this`printedHighlight, this`output,
               this`selectedHighlight, this`selectedColor
      ensures var r := Play(old(State()), D.FlushCalls(Some(rem), Some(add), line, ms), old(buf[..]));
        State() == r.printer && output == old(output) + r.tokens
    {
      ghost var p, out, text := State(), output, buf[..];
      SetColor(LineDel);
      OutputSide(ms, true, rem, add);
      ghost var rx := Play(p.(selectedColor := LineDel), D.SideCalls(ms, true, rem, add), text);
      ghost var q, o := State(), output;
      assert q == rx.printer && o == out + rx.tokens && buf[..] == text;
      SetColor(LineAdd);
      OutputSide(ms, false, add, line);
      ghost var ry := Play(rx.printer.(selectedColor := LineAdd), D.SideCalls(ms, false, add, line), text);
      assert State() == ry.printer && output == o + ry.tokens;
      SetHighlight(Off);
      BothPlayed(p, out, rem, add, line, ms, text, State(), output);
    }

    /** outputDiff: print the pending block.  With one side only, that side
        in its colour; otherwise each side cut at the Blocks compareBlocks
        finds between the two sides, gaps highlighted; both block pointers
        are cleared. */
    method OutputDiff()
      requires Valid() && line <= bufLen
      requires blockRem.Some? || blockAdd.Some?
      requires blockRem.Some? ==> blockRem.value <= line
      requires blockAdd.Some? ==> blockAdd.value <= line
      requires blockRem.Some? && blockAdd.Some? ==> blockRem.value < blockAdd.value < line
      modifies this`outLineStart, this`outLineIndent, this`printedColor, this`printedHighlight, this`output,
               this`selectedHighlight, this`selectedColor, this`blockRem, this`blockAdd
      ensures blockRem == None && blockAdd == None
      ensures var r := Play(old(State()), D.Flush(old(blockRem), old(blockAdd), line, old(buf[..bufLen])), old(buf[..]));
        State() == r.printer && output == old(output) + r.tokens
    {
      var ms := D.Pending(blockRem, blockAdd, line, buf[..bufLen]);
      OutputPending(ms);
    }

    /** The printing of outputDiff once the Blocks `ms` of the pending block
        are known. */
    method OutputPending(ms: seq<Engine.Match>)
      requires Valid() && line <= bufLen && (blockRem.Some? || blockAdd.Some?)
      requires blockRem.Some? ==> blockRem.value <= line
      requires blockAdd.Some? ==> blockAdd.value <= line
      requires blockRem.Some? && blockAdd.Some? ==> blockRem.value < blockAdd.value < line
      requires blockRem.Some? && blockAdd.Some? ==>
        D.Ordered(D.Spans(ms, true), blockRem.value, blockAdd.value) && D.Ordered(D.Spans(ms, false), blockAdd.value, line)
      modifies this`outLineStart, this`outLineIndent, this`printedColor, this`printedHighlight, this`output,
               this`selectedHighlight, this`selectedColor, this`blockRem, this`blockAdd
      ensures blockRem == None && blockAdd == None
      ensures var r := Play(old(State()), D.FlushCalls(old(blockRem), old(blockAdd), line, ms), old(buf[..]));
        State() == r.printer && output == old(output) + r.tokens
    {
      if blockAdd.None? {
        OutputOne(LineDel, blockRem.value);
        blockRem := None;
      } else if blockRem.None? {
        OutputOne(LineAdd, blockAdd.value);
        blockAdd := None;
      } else {
        OutputBoth(blockRem.value, blockAdd.value, ms);
        blockAdd, blockRem := None, None;
      }
    }
  }
}
