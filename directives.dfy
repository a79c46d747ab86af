/** What the block printer asks of the output side.  processBlock
    (src/diffparser.cpp:264-310) and its older twin outputDiff
    (src/neonapp.cpp:316-360) turn a pending removed/added block and the
    Block list of compareBlocks into a sequence of calls: select a colour,
    switch inverse video, print a byte range of the line buffer.  This module
    writes that sequence down and proves what it paints: the removed block
    in the removed colour and the added block in the added colour, each cut
    into ranges that follow one another without gap or overlap, the common
    runs not highlighted and everything between them highlighted. */
module Directives {
  import opened Colors
  import opened Wrappers
  import Engine

  /** One call on the output application: setColor, setHighlight,
      printBlock(from, to), printChar, printAnsiCodes, printCharNoAnsi. */
  datatype Call =
    | SetColor(color: Color)
    | SetHighlight(highlight: Highlight)
    | PrintBlock(from: nat, to: nat)
    | PrintChar(ch: char)
    | PrintAnsiCodes
    | PrintCharNoAnsi(ch: char)

  /** A byte range [from, to) of the line buffer. */
  datatype Span = Span(from: nat, to: nat)

  /** The range a Block covers on the removed side (aBuf..aEnd) or on the
      added side (bBuf..bEnd). */
  function SpanOf(m: Engine.Match, removed: bool): (s: Span)
    ensures s.from == (if removed then m.aBuf else m.bBuf)
    ensures s.to == (if removed then m.aEnd else m.bEnd)
  {
    if removed then Span(m.aBuf, m.aEnd) else Span(m.bBuf, m.bEnd)
  }

  /** The ranges of all Blocks on one side, in list order. */
  function Spans(ms: seq<Engine.Match>, removed: bool): (r: seq<Span>)
    ensures |r| == |ms|
    ensures forall k :: 0 <= k < |ms| ==> r[k] == SpanOf(ms[k], removed)
    decreases |ms|
  {
    if ms == [] then [] else [SpanOf(ms[0], removed)] + Spans(ms[1..], removed)
  }

  /** One walk of processBlock's for-loop over the Block list, on one side:
      the bytes from `start` up to the next Block highlighted, the Block
      itself not, and after the last Block the rest up to `end` highlighted. */
  function SideCalls(ms: seq<Engine.Match>, removed: bool, start: nat, end: nat): seq<Call>
    decreases |ms|
  {
    if ms == [] then [SetHighlight(On), PrintBlock(start, end)]
    else
      var s := SpanOf(ms[0], removed);
      [SetHighlight(On), PrintBlock(start, s.from), SetHighlight(Off), PrintBlock(s.from, s.to)]
      + SideCalls(ms[1..], removed, s.to, end)
  }

  /** The rest of a side walk from the i-th Block on. */
  lemma SideFrom(ms: seq<Engine.Match>, i: nat, removed: bool, start: nat, end: nat)
    requires i < |ms|
    ensures var s := SpanOf(ms[i], removed);
      SideCalls(ms[i..], removed, start, end)
      == [SetHighlight(On), PrintBlock(start, s.from), SetHighlight(Off), PrintBlock(s.from, s.to)]
         + SideCalls(ms[i + 1..], removed, s.to, end)
  {
    assert ms[i..][0] == ms[i] && ms[i..][1..] == ms[i + 1..];
  }

  /** The calls processBlock makes for a pending block that starts at `rem`
      (removed lines) and/or `add` (added lines) and ends where the current
      line starts: a block with only one side is printed whole in that
      side's colour; otherwise each side is cut at the Blocks `ms`. */
  function FlushCalls(rem: Option<nat>, add: Option<nat>, line: nat, ms: seq<Engine.Match>): seq<Call>
    requires rem.Some? || add.Some?
  {
    if add.None? then [SetColor(LineDel), PrintBlock(rem.value, line)]
    else if rem.None? then [SetColor(LineAdd), PrintBlock(add.value, line)]
    else
      [SetColor(LineDel)] + SideCalls(ms, true, rem.value, add.value)
      + [SetColor(LineAdd)] + SideCalls(ms, false, add.value, line)
      + [SetHighlight(Off)]
  }

  /** The Blocks processBlock works with for the pending block when the
      buffer holds `text`: none unless both sides are present; otherwise the
      ones compareBlocks finds between the removed lines [rem + 1, add) and
      the added lines [add + 1, line) (the first byte of the block, the diff
      marker of its first line, is left out of the comparison). */
  function Pending(rem: Option<nat>, add: Option<nat>, line: nat, text: seq<char>): (ms: seq<Engine.Match>)
    requires rem.Some? && add.Some? ==> rem.value < add.value < line <= |text|
    ensures !(rem.Some? && add.Some?) ==> ms == []
    ensures rem.Some? && add.Some? ==>
      Ordered(Spans(ms, true), rem.value, add.value) && Ordered(Spans(ms, false), add.value, line)
  {
    if rem.Some? && add.Some? then
      var ms := Engine.CompareBlocks(text, rem.value + 1, add.value, add.value + 1, line);
      ChainedOrdered(ms, rem.value + 1, add.value, add.value + 1, line);
      OrderedFrom(Spans(ms, true), rem.value, rem.value + 1, add.value);
      OrderedFrom(Spans(ms, false), add.value, add.value + 1, line);
      ms
    else []
  }

  /** The calls processBlock makes for the pending block. */
  function Flush(rem: Option<nat>, add: Option<nat>, line: nat, text: seq<char>): seq<Call>
    requires rem.Some? || add.Some?
    requires rem.Some? && add.Some? ==> rem.value < add.value < line <= |text|
  {
    FlushCalls(rem, add, line, Pending(rem, add, line, text))
  }

  /** A printed range with the colour and highlight selected when it was printed. */
  datatype Segment = Segment(from: nat, to: nat, color: Color, highlight: Highlight)

  /** The reference reading of a call sequence: the ranges printBlock prints,
      each with the colour and highlight selected at that moment, when the
      sequence starts with colour `c` and highlight `h` selected. */
  function Segments(calls: seq<Call>, c: Color, h: Highlight): seq<Segment>
    decreases |calls|
  {
    if calls == [] then []
    else match calls[0]
      case SetColor(c2) => Segments(calls[1..], c2, h)
      case SetHighlight(h2) => Segments(calls[1..], c, h2)
      case PrintBlock(f, t) => [Segment(f, t, c, h)] + Segments(calls[1..], c, h)
      case _ => Segments(calls[1..], c, h)
  }

  /** The colour and highlight selected after `calls`. */
  function Selection(calls: seq<Call>, c: Color, h: Highlight): (Color, Highlight)
    decreases |calls|
  {
    if calls == [] then (c, h)
    else match calls[0]
      case SetColor(c2) => Selection(calls[1..], c2, h)
      case SetHighlight(h2) => Selection(calls[1..], c, h2)
      case _ => Selection(calls[1..], c, h)
  }

  /** `segs` cover [lo, hi) one after the other, without gap or overlap. */
  predicate Tiles(segs: seq<Segment>, lo: nat, hi: nat)
    decreases |segs|
  {
    if segs == [] then lo == hi
    else segs[0].from == lo <= segs[0].to && Tiles(segs[1..], segs[0].to, hi)
  }

  /** Non-empty spans in [lo, hi), in increasing order, not overlapping. */
  predicate Ordered(spans: seq<Span>, lo: nat, hi: nat)
    decreases |spans|
  {
    if spans == [] then lo <= hi
    else lo <= spans[0].from < spans[0].to && Ordered(spans[1..], spans[0].to, hi)
  }

  /** What lies between the spans of an ordered list, within [lo, hi). */
  function Gaps(spans: seq<Span>, lo: nat, hi: nat): seq<Span>
    decreases |spans|
  {
    if spans == [] then [Span(lo, hi)]
    else [Span(lo, spans[0].from)] + Gaps(spans[1..], spans[0].to, hi)
  }

  /** The ranges of the segments printed with highlight `h`. */
  function Lit(segs: seq<Segment>, h: Highlight): seq<Span>
    decreases |segs|
  {
    if segs == [] then []
    else (if segs[0].highlight == h then [Span(segs[0].from, segs[0].to)] else []) + Lit(segs[1..], h)
  }

  predicate InColor(segs: seq<Segment>, c: Color)
  {
    forall k :: 0 <= k < |segs| ==> segs[k].color == c
  }

  lemma SegmentsCons(call: Call, rest: seq<Call>, c: Color, h: Highlight)
    ensures Segments([call] + rest, c, h)
         == if call.SetColor? then Segments(rest, call.color, h)
            else if call.SetHighlight? then Segments(rest, c, call.highlight)
            else if call.PrintBlock? then [Segment(call.from, call.to, c, h)] + Segments(rest, c, h)
            else Segments(rest, c, h)
    ensures Selection([call] + rest, c, h)
         == if call.SetColor? then Selection(rest, call.color, h)
            else if call.SetHighlight? then Selection(rest, c, call.highlight)
            else Selection(rest, c, h)
  {
    assert ([call] + rest)[1..] == rest;
  }

  /** Reading a concatenation: the second part starts from the selection
      the first part leaves. */
  lemma {:induction false} SegmentsAppend(x: seq<Call>, y: seq<Call>, c: Color, h: Highlight)
    ensures var sel := Selection(x, c, h);
      Segments(x + y, c, h) == Segments(x, c, h) + Segments(y, sel.0, sel.1)
      && Selection(x + y, c, h) == Selection(y, sel.0, sel.1)
    decreases |x|
  {
    if x == [] {
      assert x + y == y;
    } else {
      assert x + y == [x[0]] + (x[1..] + y);
      assert x == [x[0]] + x[1..];
      SegmentsCons(x[0], x[1..] + y, c, h);
      SegmentsCons(x[0], x[1..], c, h);
      match x[0]
      case SetColor(c2) => SegmentsAppend(x[1..], y, c2, h);
      case SetHighlight(h2) => SegmentsAppend(x[1..], y, c, h2);
      case PrintBlock(f, t) => SegmentsAppend(x[1..], y, c, h);
      case PrintChar(_) => SegmentsAppend(x[1..], y, c, h);
      case PrintAnsiCodes => SegmentsAppend(x[1..], y, c, h);
      case PrintCharNoAnsi(_) => SegmentsAppend(x[1..], y, c, h);
    }
  }

  lemma {:induction false} TilesAppend(x: seq<Segment>, y: seq<Segment>, lo: nat, mid: nat, hi: nat)
    requires Tiles(x, lo, mid) && Tiles(y, mid, hi)
    ensures Tiles(x + y, lo, hi)
    decreases |x|
  {
    if x != [] {
      assert (x + y)[1..] == x[1..] + y;
      TilesAppend(x[1..], y, x[0].to, mid, hi);
    } else {
      assert x + y == y;
    }
  }

  lemma {:induction false} LitAppend(x: seq<Segment>, y: seq<Segment>, h: Highlight)
    ensures Lit(x + y, h) == Lit(x, h) + Lit(y, h)
    decreases |x|
  {
    if x == [] {
      assert x + y == y;
    } else {
      var head := if x[0].highlight == h then [Span(x[0].from, x[0].to)] else [];
      assert (x + y)[0] == x[0] && (x + y)[1..] == x[1..] + y;
      assert Lit(x + y, h) == head + Lit(x[1..] + y, h);
      LitAppend(x[1..], y, h);
      AppendAssoc(head, Lit(x[1..], h), Lit(y, h));
    }
  }

  /** Reading one call off the front of `calls[i..]`. */
  lemma SegmentsAt(calls: seq<Call>, i: nat, c: Color, h: Highlight)
    requires i < |calls|
    ensures Segments(calls[i..], c, h)
         == if calls[i].SetColor? then Segments(calls[i + 1..], calls[i].color, h)
            else if calls[i].SetHighlight? then Segments(calls[i + 1..], c, calls[i].highlight)
            else if calls[i].PrintBlock? then [Segment(calls[i].from, calls[i].to, c, h)] + Segments(calls[i + 1..], c, h)
            else Segments(calls[i + 1..], c, h)
    ensures Selection(calls[i..], c, h)
         == if calls[i].SetColor? then Selection(calls[i + 1..], calls[i].color, h)
            else if calls[i].SetHighlight? then Selection(calls[i + 1..], c, calls[i].highlight)
            else Selection(calls[i + 1..], c, h)
  {
    assert calls[i..] == [calls[i]] + calls[i + 1..];
    SegmentsCons(calls[i], calls[i + 1..], c, h);
  }

  /** The ranges of the first step of a side walk. */
  lemma SideHead(start: nat, s: Span, c: Color, h: Highlight)
    ensures var head := [SetHighlight(On), PrintBlock(start, s.from), SetHighlight(Off), PrintBlock(s.from, s.to)];
      Segments(head, c, h) == [Segment(start, s.from, c, On), Segment(s.from, s.to, c, Off)]
      && Selection(head, c, h) == (c, Off)
  {
    var head := [SetHighlight(On), PrintBlock(start, s.from), SetHighlight(Off), PrintBlock(s.from, s.to)];
    assert head[4..] == [];
    SegmentsAt(head, 3, c, Off);
    SegmentsAt(head, 2, c, On);
    SegmentsAt(head, 1, c, On);
    SegmentsAt(head, 0, c, h);
    assert head[0..] == head;
  }

  /** The ranges of the last step of a side walk. */
  lemma SideTail(start: nat, end: nat, c: Color, h: Highlight)
    ensures Segments([SetHighlight(On), PrintBlock(start, end)], c, h) == [Segment(start, end, c, On)]
    ensures Selection([SetHighlight(On), PrintBlock(start, end)], c, h) == (c, On)
  {
    var tail := [SetHighlight(On), PrintBlock(start, end)];
    assert tail[2..] == [];
    SegmentsAt(tail, 1, c, On);
    SegmentsAt(tail, 0, c, h);
    assert tail[0..] == tail;
  }

  /** The reading of two consecutive segments. */
  lemma PairReads(x: Segment, y: Segment)
    ensures Tiles([x, y], x.from, y.to) <==> x.from <= x.to == y.from <= y.to
    ensures Lit([x, y], On) == (if x.highlight == On then [Span(x.from, x.to)] else [])
                             + (if y.highlight == On then [Span(y.from, y.to)] else [])
    ensures Lit([x, y], Off) == (if x.highlight == Off then [Span(x.from, x.to)] else [])
                              + (if y.highlight == Off then [Span(y.from, y.to)] else [])
  {
    assert [x, y][1..] == [y];
    assert [y][1..] == [];
    assert Tiles([y], x.to, y.to) <==> x.to == y.from <= y.to;
    assert Lit([y], On) == (if y.highlight == On then [Span(y.from, y.to)] else []) + [];
    assert Lit([y], Off) == (if y.highlight == Off then [Span(y.from, y.to)] else []) + [];
  }

  /** What one side walk paints, read with colour `c` selected: ranges that
      tile [start, end) all in colour `c`, the Blocks exactly the ranges not
      highlighted and the gaps between them exactly the highlighted ones;
      the walk leaves the highlight on. */
  lemma {:induction false} SidePaints(ms: seq<Engine.Match>, removed: bool, start: nat, end: nat, c: Color, h: Highlight)
    requires Ordered(Spans(ms, removed), start, end)
    ensures var segs := Segments(SideCalls(ms, removed, start, end), c, h);
      |segs| == 2 * |ms| + 1 && Tiles(segs, start, end) && InColor(segs, c)
      && Lit(segs, Off) == Spans(ms, removed)
      && Lit(segs, On) == Gaps(Spans(ms, removed), start, end)
    ensures Selection(SideCalls(ms, removed, start, end), c, h) == (c, On)
    decreases |ms|
  {
    if ms == [] {
      SideTail(start, end, c, h);
    } else {
      var s := SpanOf(ms[0], removed);
      var rest := SideCalls(ms[1..], removed, s.to, end);
      var spans := Spans(ms, removed);
      assert spans == [s] + Spans(ms[1..], removed);
      SidePaints(ms[1..], removed, s.to, end, c, Off);
      SideJoin(start, s, end, c, h, rest, Spans(ms[1..], removed), |ms| - 1);
    }
  }

  /** One step of a side walk in front of the rest of the walk. */
  lemma SideJoin(start: nat, s: Span, end: nat, c: Color, h: Highlight, rest: seq<Call>, spans: seq<Span>, n: nat)
    requires start <= s.from < s.to
    requires var segs := Segments(rest, c, Off);
      |segs| == 2 * n + 1 && Tiles(segs, s.to, end) && InColor(segs, c)
      && Lit(segs, Off) == spans && Lit(segs, On) == Gaps(spans, s.to, end)
    requires Selection(rest, c, Off) == (c, On)
    ensures var calls := [SetHighlight(On), PrintBlock(start, s.from), SetHighlight(Off), PrintBlock(s.from, s.to)] + rest;
      var segs := Segments(calls, c, h);
      |segs| == 2 * (n + 1) + 1 && Tiles(segs, start, end) && InColor(segs, c)
      && Lit(segs, Off) == [s] + spans && Lit(segs, On) == [Span(start, s.from)] + Gaps(spans, s.to, end)
      && Selection(calls, c, h) == (c, On)
  {
    var head := [SetHighlight(On), PrintBlock(start, s.from), SetHighlight(Off), PrintBlock(s.from, s.to)];
    SideHead(start, s, c, h);
    SegmentsAppend(head, rest, c, h);
    var first := [Segment(start, s.from, c, On), Segment(s.from, s.to, c, Off)];
    var more := Segments(rest, c, Off);
    PairReads(first[0], first[1]);
    assert [first[0], first[1]] == first;
    TilesAppend(first, more, start, s.to, end);
    LitAppend(first, more, Off);
    LitAppend(first, more, On);
  }

  /** The Blocks of compareBlocks give ordered spans on each side. */
  lemma {:induction false} ChainedOrdered(ms: seq<Engine.Match>, a: nat, remEnd: nat, b: nat, addEnd: nat)
    requires Engine.Chained(ms, a, remEnd, b, addEnd)
    ensures Ordered(Spans(ms, true), a, remEnd) && Ordered(Spans(ms, false), b, addEnd)
    decreases |ms|
  {
    if ms != [] {
      assert Spans(ms, true)[1..] == Spans(ms[1..], true);
      assert Spans(ms, false)[1..] == Spans(ms[1..], false);
      ChainedOrdered(ms[1..], ms[0].aEnd, remEnd, ms[0].bEnd, addEnd);
    }
  }

  lemma {:induction false} OrderedBounds(spans: seq<Span>, lo: nat, hi: nat)
    requires Ordered(spans, lo, hi)
    ensures lo <= hi
    decreases |spans|
  {
    if spans != [] {
      OrderedBounds(spans[1..], spans[0].to, hi);
    }
  }

  lemma OrderedFrom(spans: seq<Span>, lo: nat, lo2: nat, hi: nat)
    requires lo <= lo2 && Ordered(spans, lo2, hi)
    ensures Ordered(spans, lo, hi)
  {
  }

  /** A block with one side only is printed as one range in that side's
      colour, from the block start to the current line. */
  lemma OneSidedPaints(rem: Option<nat>, add: Option<nat>, line: nat, ms: seq<Engine.Match>, c: Color, h: Highlight)
    requires rem.Some? != add.Some?
    ensures var start := if rem.Some? then rem.value else add.value;
      Segments(FlushCalls(rem, add, line, ms), c, h)
      == [Segment(start, line, if rem.Some? then LineDel else LineAdd, h)]
  {
    var calls := FlushCalls(rem, add, line, ms);
    assert calls[2..] == [];
    SegmentsAt(calls, 1, if rem.Some? then LineDel else LineAdd, h);
    SegmentsAt(calls, 0, c, h);
    assert calls[0..] == calls;
  }

  /** A block with both sides: the removed lines [rem, add) are painted in
      the removed colour and the added lines [add, line) in the added
      colour; on each side the unhighlighted ranges are exactly that side's
      Blocks and the highlighted ranges exactly the gaps between them; the
      highlight is left off. */
  lemma {:induction false} TwoSidedPaints(rem: nat, add: nat, line: nat, ms: seq<Engine.Match>, c: Color, h: Highlight)
    requires Ordered(Spans(ms, true), rem, add) && Ordered(Spans(ms, false), add, line)
    ensures var segs := Segments(FlushCalls(Some(rem), Some(add), line, ms), c, h);
      var k := 2 * |ms| + 1;
      |segs| == 2 * k && Tiles(segs, rem, line)
      && Tiles(segs[..k], rem, add) && InColor(segs[..k], LineDel)
      && Lit(segs[..k], Off) == Spans(ms, true) && Lit(segs[..k], On) == Gaps(Spans(ms, true), rem, add)
      && Tiles(segs[k..], add, line) && InColor(segs[k..], LineAdd)
      && Lit(segs[k..], Off) == Spans(ms, false) && Lit(segs[k..], On) == Gaps(Spans(ms, false), add, line)
    ensures Selection(FlushCalls(Some(rem), Some(add), line, ms), c, h) == (LineAdd, Off)
  {
    var x := SideCalls(ms, true, rem, add);
    var y := SideCalls(ms, false, add, line);
    var calls := FlushCalls(Some(rem), Some(add), line, ms);
    assert calls == [SetColor(LineDel)] + (x + ([SetColor(LineAdd)] + (y + [SetHighlight(Off)])));
    SidePaints(ms, true, rem, add, LineDel, h);
    SidePaints(ms, false, add, line, LineAdd, On);
    var sx := Segments(x, LineDel, h);
    var sy := Segments(y, LineAdd, On);
    SegmentsCons(SetColor(LineDel), x + ([SetColor(LineAdd)] + (y + [SetHighlight(Off)])), c, h);
    SegmentsAppend(x, [SetColor(LineAdd)] + (y + [SetHighlight(Off)]), LineDel, h);
    SegmentsCons(SetColor(LineAdd), y + [SetHighlight(Off)], LineDel, On);
    SegmentsAppend(y, [SetHighlight(Off)], LineAdd, On);
    SegmentsCons(SetHighlight(Off), [], LineAdd, On);
    assert [SetHighlight(Off)] == [SetHighlight(Off)] + [];
    var segs := Segments(calls, c, h);
    assert segs == sx + (sy + []);
    assert sy + [] == sy;
    assert segs[..2 * |ms| + 1] == sx && segs[2 * |ms| + 1..] == sy;
    TilesAppend(sx, sy, rem, add, line);
  }
}
