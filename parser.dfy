/** The DiffParser class of src/diffparser.cpp: the line buffer and its
    reader (readLine, resizeBuffer, resetBuffer), the in-place escape
    stripper stripLineAnsi, the line handlers, processBlock and the
    processInput state machine.  Buffer positions are offsets into `buf`;
    a null line_, blockRem_ or blockAdd_ is offset 0 or None.  The calls the
    parser makes on the output application are logged in `out`. */
module Parser {
  import opened Wrappers
  import opened Colors
  import opened Ansi
  import opened Lines
  import Classify
  import Engine
  import D = Directives

  /** printChar of each byte of `s`, in order. */
  function Chars(s: seq<char>): (r: seq<D.Call>)
    ensures |r| == |s|
    decreases |s|
  {
    if s == [] then [] else [D.PrintChar(s[0])] + Chars(s[1..])
  }

  /** printCharNoAnsi of each byte of `s`, in order. */
  function RawChars(s: seq<char>): (r: seq<D.Call>)
    ensures |r| == |s|
    ensures forall k :: 0 <= k < |s| ==> r[k] == D.PrintCharNoAnsi(s[k])
    decreases |s|
  {
    if s == [] then [] else [D.PrintCharNoAnsi(s[0])] + RawChars(s[1..])
  }

  /** The bytes a call sequence prints with printChar. */
  function Printed(calls: seq<D.Call>): seq<char>
    decreases |calls|
  {
    if calls == [] then []
    else (if calls[0].PrintChar? then [calls[0].ch] else []) + Printed(calls[1..])
  }

  /** handleFileInfoLine and handleContextLine: highlight off, the line in
      `color` without its escape runs, then colour and highlight reset. */
  function Shown(color: Color, text: seq<char>): seq<D.Call>
  {
    [D.SetHighlight(Off), D.SetColor(color)] + Chars(StripAnsi(text))
    + [D.SetColor(Reset), D.SetHighlight(HighlightReset)]
  }

  /** The length of the range part of an "@@" line that handleRangeInfoLine
      counts, from byte `k` with `at` '@' bytes seen: it stops after the
      fourth '@' or at the end of the line. */
  function RangeLen(s: seq<char>, k: nat := 0, at: nat := 0): (r: nat)
    requires k <= |s|
    ensures k <= r <= |s|
    decreases |s| - k
  {
    if at >= 4 || k == |s| then k else RangeLen(s, k + 1, if s[k] == '@' then at + 1 else at)
  }

  /** handleRangeInfoLine: the range part in the range colour, the rest of
      the line (the heading) in the heading colour, both without escape
      runs, then colour and highlight reset. */
  function RangeShown(text: seq<char>): seq<D.Call>
  {
    var r := RangeLen(text);
    RangeFramed(Chars(StripAnsi(text[..r])), Chars(StripAnsi(text[r..])))
  }

  /** The printed range part and heading between their colour changes. */
  function RangeFramed(range: seq<D.Call>, heading: seq<D.Call>): seq<D.Call>
  {
    [D.SetHighlight(Off), D.SetColor(BlockRange)] + range + [D.SetColor(BlockHeading)] + heading
    + [D.SetColor(Reset), D.SetHighlight(HighlightReset)]
  }

  /** The number of '@' bytes in `s`. */
  function Ats(s: seq<char>): nat
    decreases |s|
  {
    if s == [] then 0 else Ats(s[..|s| - 1]) + (if s[|s| - 1] == '@' then 1 else 0)
  }

  /** The counting loop from byte `k` with `at` '@' bytes seen: it stops
      right after the fourth '@', or at the end of a line with fewer. */
  lemma {:induction false} RangeLenFrom(s: seq<char>, k: nat, at: nat)
    requires k <= |s| && at == Ats(s[..k]) && at <= 4
    ensures var r := RangeLen(s, k, at);
      (Ats(s[..r]) == 4 && (r > k ==> s[r - 1] == '@')) || (r == |s| && Ats(s) < 4)
    ensures var r := RangeLen(s, k, at); forall j :: k <= j < r ==> Ats(s[..j]) < 4
    decreases |s| - k
  {
    if at < 4 && k < |s| {
      assert s[..k + 1][..k] == s[..k];
      var at' := if s[k] == '@' then at + 1 else at;
      RangeLenFrom(s, k + 1, at');
    } else if k == |s| {
      assert s[..k] == s;
    }
  }

  /** handleRangeInfoLine's range part ends right after the line's fourth
      '@', or is the whole line when it has fewer than four. */
  lemma RangeLenIsFourthAt(s: seq<char>)
    ensures var r := RangeLen(s);
      (1 <= r && s[r - 1] == '@' && Ats(s[..r]) == 4 && forall j :: 0 <= j < r ==> Ats(s[..j]) < 4)
      || (r == |s| && Ats(s) < 4)
  {
    assert s[..0] == [];
    RangeLenFrom(s, 0, 0);
  }

  /** The calls `x + y` print what `x` prints, then what `y` prints. */
  lemma {:induction false} PrintedAppend(x: seq<D.Call>, y: seq<D.Call>)
    ensures Printed(x + y) == Printed(x) + Printed(y)
    decreases |x|
  {
    if x == [] {
      assert x + y == y;
    } else {
      assert (x + y)[0] == x[0] && (x + y)[1..] == x[1..] + y;
      PrintedAppend(x[1..], y);
    }
  }

  /** Calls that print no byte with printChar print nothing. */
  lemma {:induction false} PrintedNone(x: seq<D.Call>)
    requires forall k :: 0 <= k < |x| ==> !x[k].PrintChar?
    ensures Printed(x) == []
    decreases |x|
  {
    if x != [] {
      PrintedNone(x[1..]);
    }
  }

  /** printChar of each byte prints those bytes. */
  lemma {:induction false} PrintedChars(s: seq<char>)
    ensures Printed(Chars(s)) == s
    decreases |s|
  {
    if s != [] {
      PrintedAppend([D.PrintChar(s[0])], Chars(s[1..]));
      PrintedChars(s[1..]);
    }
  }

  /** handleFileInfoLine and handleContextLine print the line without its
      escape runs. */
  lemma ShownPrintsStripped(color: Color, text: seq<char>)
    ensures Printed(Shown(color, text)) == StripAnsi(text)
  {
    var pre: seq<D.Call> := [D.SetHighlight(Off), D.SetColor(color)];
    var post: seq<D.Call> := [D.SetColor(Reset), D.SetHighlight(HighlightReset)];
    PrintedNone(pre);
    PrintedNone(post);
    PrintedFramed(pre, StripAnsi(text), post);
  }

  /** handleRangeInfoLine prints the range part and then the heading, each
      without its escape runs. */
  lemma RangeShownPrintsParts(text: seq<char>)
    ensures var r := RangeLen(text);
      Printed(RangeShown(text)) == StripAnsi(text[..r]) + StripAnsi(text[r..])
  {
    var r := RangeLen(text);
    var x, y := StripAnsi(text[..r]), StripAnsi(text[r..]);
    var p1: seq<D.Call> := [D.SetHighlight(Off), D.SetColor(BlockRange)];
    var p2: seq<D.Call> := [D.SetColor(BlockHeading)];
    var p3: seq<D.Call> := [D.SetColor(Reset), D.SetHighlight(HighlightReset)];
    PrintedNone(p1);
    PrintedNone(p2);
    PrintedNone(p3);
    PrintedBetween(p1, Chars(x), p2, Chars(y), p3);
    PrintedChars(x);
    PrintedChars(y);
  }

  /** Two runs of calls separated and framed by calls that print nothing. */
  lemma PrintedBetween(p1: seq<D.Call>, a: seq<D.Call>, p2: seq<D.Call>, b: seq<D.Call>, p3: seq<D.Call>)
    requires Printed(p1) == [] && Printed(p2) == [] && Printed(p3) == []
    ensures Printed(p1 + a + p2 + b + p3) == Printed(a) + Printed(b)
  {
    PrintedAppend(p1 + a + p2 + b, p3);
    PrintedAppend(p1 + a + p2, b);
    PrintedAppend(p1 + a, p2);
    PrintedAppend(p1, a);
  }

  /** A line printed between calls that print nothing. */
  lemma PrintedFramed(pre: seq<D.Call>, x: seq<char>, post: seq<D.Call>)
    requires Printed(pre) == [] && Printed(post) == []
    ensures Printed(pre + Chars(x) + post) == x
  {
    PrintedAppend(pre + Chars(x), post);
    PrintedAppend(pre, Chars(x));
    PrintedChars(x);
  }

  /** handleGenericLine: colour and highlight reset, the pending escape
      codes written, then every byte of the line as it is. */
  function GenericCalls(text: seq<char>): seq<D.Call>
  {
    [D.SetColor(Reset), D.SetHighlight(HighlightReset), D.PrintAnsiCodes] + RawChars(text)
  }

  /** The calls of the handler for a line that is not a block line. */
  function Handled(kind: Classify.Kind, text: seq<char>): seq<D.Call>
  {
    match kind
    case FileInfo => Shown(FileInfo, text)
    case RangeInfo => RangeShown(text)
    case Context => Shown(LineContext, text)
    case _ => []
  }

  /** processBlock for whatever block is pending, nothing when none is. */
  function Flushed(rem: Option<nat>, add: Option<nat>, line: nat, text: seq<char>): seq<D.Call>
    requires rem.Some? && add.Some? ==> rem.value < add.value < line <= |text|
  {
    if rem.None? && add.None? then [] else D.Flush(rem, add, line, text)
  }

  /** The pending block's sides lie in the buffer before `end`: the removed
      side from `rem` up to the added side (or `end`), the added side from
      `add` to `end`; a side that is present is not empty. */
  predicate BlockOrder(end: nat, rem: Option<nat>, add: Option<nat>)
  {
    (add.Some? ==> add.value < end)
    && (rem.Some? ==> rem.value < (if add.Some? then add.value else end))
  }

  /** The parser's state as processInput sees it: the buffer contents
      buf_[0, bufLen_), line_ and lineLen_, inBlock_, the pending block and
      the calls made so far. */
  datatype State = State(text: seq<char>, line: nat, lineLen: int, inBlock: bool,
                         rem: Option<nat>, add: Option<nat>, out: seq<D.Call>)

  /** Between two lines: the last line handled ends the text (or, after
      handleGenericLine, line_ is past it and lineLen_ is -1), and a block is
      pending exactly when inBlock_ is set. */
  predicate Between(s: State)
  {
    s.line <= |s.text| && (s.lineLen == |s.text| - s.line || (s.lineLen == -1 && s.line == |s.text|))
    && (s.inBlock <==> s.rem.Some? || s.add.Some?) && BlockOrder(|s.text|, s.rem, s.add)
  }

  /** A line has been read: it ends the text, and the pending block ends
      where it starts. */
  predicate Ready(s: State)
  {
    0 <= s.lineLen && s.line + s.lineLen == |s.text| && BlockOrder(s.line, s.rem, s.add)
  }

  /** readLine's effect on the state: `chunk` appended to the text becomes
      the current line. */
  function Load(s: State, chunk: seq<char>): (r: State)
    ensures Between(s) ==> Ready(r) && (r.inBlock <==> r.rem.Some? || r.add.Some?)
  {
    s.(text := s.text + chunk, line := |s.text|, lineLen := |chunk|)
  }

  /** processBlock's effect on the state. */
  function FlushState(s: State): (r: State)
    requires s.line <= |s.text| && BlockOrder(s.line, s.rem, s.add) && (s.rem.Some? || s.add.Some?)
  {
    s.(out := s.out + D.Flush(s.rem, s.add, s.line, s.text), inBlock := false, rem := None, add := None)
  }

  /** The callback of the handler `kind` for the current line. */
  function Handle(kind: Classify.Kind, s: State): (r: State)
    requires Ready(s)
    ensures r.line <= |r.text| && r.lineLen == |r.text| - r.line
    ensures StripAnsi(s.text[s.line..]) != [] ==> BlockOrder(|r.text|, r.rem, r.add)
    ensures kind.Rem? ==> r.rem.Some? && r.inBlock == (s.inBlock && s.add.None?)
    ensures kind.Add? ==> r.add.Some? && r.inBlock == s.inBlock
    ensures !kind.Rem? && !kind.Add? ==> r.rem == s.rem && r.add == s.add && r.inBlock == s.inBlock
  {
    match kind
    case Rem => Join(if s.add.Some? then FlushState(s) else s, true)
    case Add => Join(s, false)
    case _ => s.(out := s.out + Handled(kind, s.text[s.line..]), line := |s.text|, lineLen := 0)
  }

  /** A printing handler's effect: it passes over the line and prints it. */
  lemma PrintedLine(s: State, kind: Classify.Kind, r: State)
    requires Ready(s) && !kind.Rem? && !kind.Add?
    requires r == s.(out := s.out + Handled(kind, s.text[s.line..]), line := |s.text|, lineLen := 0)
    ensures r == Handle(kind, s)
  {
  }

  /** The current line joins the removed (or added) side, which starts at
      the line if it is new; the line loses its escape runs. */
  function Join(s: State, removed: bool): State
    requires s.line <= |s.text|
  {
    StripState(if removed then s.(rem := if s.rem.None? then Some(s.line) else s.rem)
               else s.(add := if s.add.None? then Some(s.line) else s.add))
  }

  /** stripLineAnsi's effect on the state: the current line, which ends the
      text, loses its escape runs. */
  function StripState(s: State): State
    requires s.line <= |s.text|
  {
    var x := StripAnsi(s.text[s.line..]);
    s.(text := s.text[..s.line] + x, lineLen := |x|)
  }

  /** One turn of processInput's loop after readLine: the first table entry
      that matches the line's visible text under the corrected matcher
      (Ansi.HandlerForLine), or the generic handler; a block
      line ends a pending block only by being no block line, and the buffer
      is emptied unless a block is pending afterwards. */
  function Step(s: State): (r: State)
    requires Ready(s) && (s.inBlock <==> s.rem.Some? || s.add.Some?)
    ensures Between(r)
  {
    var t := s.text[s.line..];
    var i := Classify.HandlerIndex(Visible(t));
    if i == |Classify.Table| then
      s.(out := s.out + GenericCalls(t), line := |s.text|, lineLen := -1)
    else
      VisiblePrefixOfStripped(t);
      Dispatched(s, Classify.Table[i])
  }

  /** Step on a line no table entry matches. */
  lemma StepGeneric(s: State, r: State)
    requires Ready(s) && (s.inBlock <==> s.rem.Some? || s.add.Some?)
    requires Classify.HandlerIndex(Visible(s.text[s.line..])) == |Classify.Table|
    requires r == s.(out := s.out + GenericCalls(s.text[s.line..]), line := |s.text|, lineLen := -1)
    ensures r == Step(s)
  {
  }

  /** Step on a line table entry `i` matches. */
  lemma StepFound(s: State, i: nat)
    requires Ready(s) && (s.inBlock <==> s.rem.Some? || s.add.Some?)
    requires i == Classify.HandlerIndex(Visible(s.text[s.line..])) < |Classify.Table|
    ensures StripAnsi(s.text[s.line..]) != [] || !Classify.Table[i].blockLine
    ensures Step(s) == Dispatched(s, Classify.Table[i])
  {
    VisiblePrefixOfStripped(s.text[s.line..]);
  }

  /** The table handler `h` for the current line: a block line ends a
      pending block only by being no block line, and the buffer is emptied
      unless a block is pending afterwards. */
  function Dispatched(s: State, h: Classify.LineHandler): (r: State)
    requires Ready(s) && (s.inBlock <==> s.rem.Some? || s.add.Some?)
    requires h.blockLine ==> StripAnsi(s.text[s.line..]) != []
    requires h.blockLine <==> h.kind.Rem? || h.kind.Add?
    ensures Between(r)
  {
    var s1 := if s.inBlock && !h.blockLine then FlushState(s) else s;
    var s2 := Handle(h.kind, s1.(inBlock := h.blockLine));
    if s2.inBlock then s2 else s2.(text := [], line := 0, lineLen := 0, rem := None, add := None)
  }

  /** processInput's loop over the complete lines `lines`. */
  function Run(s: State, lines: seq<seq<char>>): (r: State)
    requires Between(s)
    ensures Between(r)
    decreases |lines|
  {
    if lines == [] then s else Run(Step(Load(s, lines[0])), lines[1..])
  }

  /** The end of processInput, after the readLine that found no line:
      a pending block is processed. */
  function Finish(s: State): State
    requires Ready(s) && (s.inBlock <==> s.rem.Some? || s.add.Some?)
  {
    if s.inBlock then FlushState(s) else s
  }

  /** What the last readLine leaves in the buffer: nothing once the stream
      was at end of file, else the unterminated rest of the input and the
      byte EOF leaves. */
  function Tail(input: seq<char>, pos: nat, eof: bool): seq<char>
    requires pos <= |input|
  {
    if eof then [] else LastPart(input[pos..]) + [EofByte]
  }

  /** Where processInput's loop stands: running the complete lines still in
      the input from `s` reaches `goal`, and the last readLine will leave
      `tail`. */
  ghost predicate Reading(input: seq<char>, s: State, pos: nat, eof: bool, goal: State, tail: seq<char>)
  {
    pos <= |input| && Between(s) && Run(s, CompleteLines(input[pos..])) == goal && Tail(input, pos, eof) == tail
  }

  /** processInput's loop after a readLine that found the line ending `s`:
      dispatching it and running the complete lines still in the input
      reaches `goal`, and the last readLine will leave `tail`. */
  ghost predicate LineRead(input: seq<char>, s: State, pos: nat, eof: bool, goal: State, tail: seq<char>)
  {
    pos <= |input| && Ready(s) && (s.inBlock <==> s.rem.Some? || s.add.Some?)
    && Run(Step(s), CompleteLines(input[pos..])) == goal && Tail(input, pos, eof) == tail
  }

  /** The line `l` read: the next complete line of the input. */
  lemma ReadingLine(input: seq<char>, s: State, pos: nat, eof: bool, l: seq<char>,
                    pos': nat, eof': bool, goal: State, tail: seq<char>)
    requires Reading(input, s, pos, eof, goal, tail) && pos' <= |input|
    requires CompleteLines(input[pos..]) == [l] + CompleteLines(input[pos'..])
    requires Tail(input, pos, eof) == Tail(input, pos', eof')
    ensures LineRead(input, Load(s, l), pos', eof', goal, tail)
  {
    var lines := CompleteLines(input[pos..]);
    assert lines[0] == l && lines[1..] == CompleteLines(input[pos'..]);
  }

  /** What readLine appends: nothing once the stream is at end of file. */
  function Fetched(input: seq<char>, pos: nat, eof: bool): (c: Chunk)
    requires pos <= |input|
    ensures pos <= c.next <= |input| && (eof ==> c == Chunk([], pos, true)) && (!c.atEof ==> pos < c.next)
  {
    if eof then Chunk([], pos, true) else ReadChunk(input, pos)
  }

  /** A readLine inside processInput's loop: either the next complete line
      is loaded, or the input is exhausted and the buffer holds what the
      last readLine leaves. */
  lemma NextRead(input: seq<char>, s: State, pos: nat, eof: bool, goal: State, tail: seq<char>)
    requires Reading(input, s, pos, eof, goal, tail) && (eof ==> pos == |input|)
    ensures var c := Fetched(input, pos, eof);
      !c.atEof ==> LineRead(input, Load(s, c.text), c.next, c.atEof, goal, tail)
    ensures var c := Fetched(input, pos, eof);
      c.atEof ==> Load(s, c.text) == Load(goal, tail)
  {
    var c := Fetched(input, pos, eof);
    if eof {
      assert input[pos..] == [];
      assert s.text + [] == s.text;
    } else {
      ChunkStep(input, pos, c);
      if !c.atEof {
        ReadingLine(input, s, pos, eof, c.text, c.next, c.atEof, goal, tail);
      }
    }
  }

  /** The line read, dispatched: the loop stands where it did before the
      next readLine. */
  lemma Stepped(input: seq<char>, s: State, pos: nat, eof: bool, goal: State, tail: seq<char>)
    requires LineRead(input, s, pos, eof, goal, tail)
    ensures Reading(input, Step(s), pos, eof, goal, tail)
  {
  }

  class DiffParser {
    const input: seq<char>
    var pos: nat
    var eof: bool
    var buf: array<char>
    var bufLen: nat
    var bufSize: nat
    var line: nat
    var lineLen: int
    var inBlock: bool
    var blockRem: Option<nat>
    var blockAdd: Option<nat>
    var out: seq<D.Call>

    /** The buffer holds bufLen bytes of its bufSize; the stream position is
        within the input. */
    predicate Buffered()
      reads this
    {
      buf.Length == bufSize && 1 <= bufSize && bufLen <= bufSize && pos <= |input| && (eof ==> pos == |input|)
    }

    /** Between two lines: the last line handled ends the buffer (or, after
        handleGenericLine, line_ is past it and lineLen_ is -1), and the
        pending block runs to the end of the buffer. */
    predicate Idle()
      reads this, buf
    {
      Buffered() && Between(Snapshot())
    }

    /** A line has been read: it ends the buffer, and the pending block ends
        where it starts. */
    predicate Loaded()
      reads this
    {
      Current() && (inBlock <==> blockRem.Some? || blockAdd.Some?)
    }

    /** The current line ends the buffer and the pending block ends where
        it starts. */
    predicate Current()
      reads this
    {
      Buffered() && 0 <= lineLen && line + lineLen == bufLen && BlockOrder(line, blockRem, blockAdd)
    }

    /** The parser's state as a value. */
    function Snapshot(): State
      reads this, buf
      requires bufLen <= buf.Length
    {
      State(buf[..bufLen], line, lineLen, inBlock, blockRem, blockAdd, out)
    }

    constructor(input: seq<char>)
      ensures Idle() && this.input == input && pos == 0 && !eof
      ensures bufSize == InitialSize && bufLen == 0 && line == 0 && lineLen == 0
      ensures blockRem == None && blockAdd == None && !inBlock
      ensures out == []
    {
      this.input := input;
      pos, eof := 0, false;
      bufLen, bufSize := 0, InitialSize;
      line, lineLen := 0, 0;
      inBlock := false;
      blockRem, blockAdd := None, None;
      out := [];
      buf := new char[InitialSize];
    }

    /** resizeBuffer: the size grows by itself, by at most MaxIncrement; the
        bytes are kept, and so are the offsets of line_, blockRem_ and
        blockAdd_ (the fields this method does not change). */
    method ResizeBuffer()
      requires buf.Length == bufSize && 1 <= bufSize
      modifies this`buf, this`bufSize
      ensures bufSize == Grown(old(bufSize)) && buf.Length == bufSize && fresh(buf)
      ensures buf[..old(bufSize)] == old(buf[..])
    {
      var grown := new char[Grown(bufSize)];
      forall k | 0 <= k < bufSize {
        grown[k] := buf[k];
      }
      buf, bufSize := grown, Grown(bufSize);
    }

    /** One byte into the buffer, resized first when it is full. */
    method Put(ch: char)
      requires buf.Length == bufSize && 1 <= bufSize && bufLen <= bufSize
      modifies this`buf, this`bufSize, this`bufLen, this`lineLen, buf
      ensures buf.Length == bufSize && bufLen <= bufSize && old(bufSize) <= bufSize
      ensures buf == old(buf) || fresh(buf)
      ensures bufLen == old(bufLen) + 1 && lineLen == old(lineLen) + 1
      ensures buf[..bufLen] == old(buf[..bufLen]) + [ch]
    {
      if bufLen >= bufSize {
        ResizeBuffer();
      }
      buf[bufLen] := ch;
      bufLen, lineLen := bufLen + 1, lineLen + 1;
    }

    /** readLine: append the next line of the stream to the buffer, or the
        rest of the stream and the byte EOF leaves; false once end of file
        has been hit. */
    method ReadLine() returns (more: bool)
      requires Buffered()
      modifies this`pos, this`eof, this`buf, this`bufSize, this`bufLen, this`line, this`lineLen, buf
      ensures Buffered() && line == old(bufLen) && line + lineLen == bufLen && 0 <= lineLen
      ensures buf == old(buf) || fresh(buf)
      ensures var c := Fetched(input, old(pos), old(eof));
        buf[..bufLen] == old(buf[..bufLen]) + c.text && pos == c.next && eof == c.atEof && more == !c.atEof
      ensures Snapshot() == Load(old(Snapshot()), Fetched(input, old(pos), old(eof)).text)
    {
      line, lineLen := bufLen, 0;
      if eof {
        assert buf[..bufLen] == buf[..bufLen] + [];
        return false;
      }
      ghost var pos0 := pos;
      ReadBytes();
      more := !eof;
      ChunkTaken(input, pos0, pos, eof);
    }

    /** The loop of readLine. */
    method ReadBytes()
      requires Buffered() && line + lineLen == bufLen && !eof
      modifies this`pos, this`eof, this`buf, this`bufSize, this`bufLen, this`lineLen, buf
      ensures Buffered() && line + lineLen == bufLen && old(bufSize) <= bufSize
      ensures buf == old(buf) || fresh(buf)
      ensures old(pos) <= pos <= NewlineFrom(input, old(pos)) + 1
      ensures eof ==> pos == |input| && pos <= NewlineFrom(input, old(pos))
      ensures !eof ==> old(pos) < pos && input[pos - 1] == '\n'
      ensures buf[..bufLen] == old(buf[..bufLen]) + Taken(input, old(pos), pos, eof)
    {
      ghost var text0 := buf[..bufLen];
      while !eof
        invariant Buffered() && (buf == old(buf) || fresh(buf))
        invariant line + lineLen == bufLen && old(bufSize) <= bufSize
        invariant old(pos) <= pos <= NewlineFrom(input, old(pos)) && (eof ==> pos == |input|)
        invariant buf[..bufLen] == text0 + Taken(input, old(pos), pos, eof)
        decreases |input| - pos, !eof
      {
        TakenNext(text0, input, old(pos), pos);
        var ch;
        ch, pos, eof := Getc(input, pos).0, Getc(input, pos).1, pos == |input|;
        Put(ch);
        if ch == '\n' {
          return;
        }
      }
    }

    /** resetBuffer: empty buffer, no current line, no pending block. */
    method ResetBuffer()
      requires Buffered()
      modifies this`bufLen, this`line, this`lineLen, this`blockRem, this`blockAdd
      ensures Buffered()
      ensures bufLen == 0 && line == 0 && lineLen == 0 && blockRem == None && blockAdd == None
    {
      bufLen := 0;
      line, lineLen := 0, 0;
      blockRem, blockAdd := None, None;
    }

    /** stripLineAnsi: remove every escape run from the current line, which
        ends the buffer, moving the kept bytes down in place. */
    method StripLineAnsi()
      requires Buffered() && 0 <= lineLen && line + lineLen == bufLen
      modifies buf, this`lineLen, this`bufLen
      ensures Buffered() && 0 <= lineLen && line + lineLen == bufLen && bufLen <= old(bufLen)
      ensures buf[..bufLen] == old(buf[..line]) + StripAnsi(old(buf[line..bufLen]))
      ensures Snapshot() == StripState(old(Snapshot()))
    {
      ghost var s, pre := buf[line..bufLen], buf[..line];
      ghost var s0 := Snapshot();
      assert s0.text[..line] == pre && s0.text[line..] == s;
      var len, total := StripKept(buf, s, line, lineLen, bufLen);
      assert buf[..total] == pre + StripAnsi(s);
      lineLen, bufLen := len, total;
    }

    /** printLineNoAnsi(length): the next `length` bytes of the current line
        (all of it for -1 or a longer length) printed without their escape
        runs, line_ moving past them; the calls made are returned. */
    method PrintLineNoAnsi(length: int) returns (calls: seq<D.Call>)
      requires 0 <= lineLen && line + lineLen <= buf.Length && -1 <= length
      modifies this`line, this`lineLen
      ensures line == old(line) + (if length == -1 || length > old(lineLen) then old(lineLen) else length)
      ensures line + lineLen == old(line + lineLen) && 0 <= lineLen
      ensures calls == Chars(StripAnsi(old(buf[..])[old(line)..line]))
    {
      var n := if length == -1 || length > lineLen then lineLen else length;
      if n == 0 {
        return [];
      }
      lineLen := lineLen - n;
      var lineEnd := line + n;
      calls := PrintNoAnsi(buf[..], line, lineEnd);
      line := lineEnd;
    }

    /** handleFileInfoLine: a "---" or "+++" line in the file colour. */
    method HandleFileInfoLine()
      requires 0 <= lineLen && line + lineLen == bufLen <= buf.Length
      modifies this`line, this`lineLen, this`out
      ensures line == bufLen && lineLen == 0
      ensures out == old(out) + Shown(FileInfo, old(buf[line..line + lineLen]))
    {
      ghost var all, l0 := buf[..], line;
      var printed := PrintLineNoAnsi(-1);
      assert buf[..] == all;
      out := out + ([D.SetHighlight(Off), D.SetColor(FileInfo)] + printed + [D.SetColor(Reset), D.SetHighlight(HighlightReset)]);
    }

    /** handleRangeInfoLine: an "@@" line, its range part (through the
        fourth '@') in the range colour and the rest in the heading colour. */
    method HandleRangeInfoLine()
      requires 0 <= lineLen && line + lineLen == bufLen <= buf.Length
      modifies this`line, this`lineLen, this`out
      ensures line == bufLen && lineLen == 0
      ensures out == old(out + RangeShown(buf[line..line + lineLen]))
    {
      var range, heading := PrintRangeParts();
      out := out + RangeFramed(range, heading);
    }

    /** The range part and then the heading of an "@@" line, each printed
        without escape runs, passing over the whole line. */
    method PrintRangeParts() returns (range: seq<D.Call>, heading: seq<D.Call>)
      requires 0 <= lineLen && line + lineLen <= buf.Length
      modifies this`line, this`lineLen
      ensures line == old(line + lineLen) && lineLen == 0
      ensures RangeFramed(range, heading) == RangeShown(old(buf[line..line + lineLen]))
    {
      ghost var all, l0, e, text := buf[..], line, line + lineLen, buf[line..line + lineLen];
      var rangeLen := RangePart();
      range := PrintLineNoAnsi(rangeLen);
      ghost var l1 := line;
      heading := PrintLineNoAnsi(-1);
      RangeShownOf(all, l0, l1, e, text, rangeLen, range, heading);
    }

    /** The '@'-counting loop of handleRangeInfoLine. */
    method RangePart() returns (rangeLen: nat)
      requires 0 <= lineLen && line + lineLen <= buf.Length
      ensures rangeLen == RangeLen(buf[line..line + lineLen]) <= lineLen
    {
      ghost var text := buf[line..line + lineLen];
      var at := 0;
      rangeLen := 0;
      while at < 4 && rangeLen < lineLen
        invariant rangeLen <= lineLen && RangeLen(text, rangeLen, at) == RangeLen(text)
        decreases lineLen - rangeLen
      {
        var c := buf[line + rangeLen];
        rangeLen := rangeLen + 1;
        if c == '@' {
          at := at + 1;
        }
      }
    }

    /** handleContextLine: a " " line in the context colour. */
    method HandleContextLine()
      requires 0 <= lineLen && line + lineLen == bufLen <= buf.Length
      modifies this`line, this`lineLen, this`out
      ensures line == bufLen && lineLen == 0
      ensures out == old(out) + Shown(LineContext, old(buf[line..line + lineLen]))
    {
      ghost var all, l0 := buf[..], line;
      var printed := PrintLineNoAnsi(-1);
      assert buf[..] == all;
      out := out + ([D.SetHighlight(Off), D.SetColor(LineContext)] + printed + [D.SetColor(Reset), D.SetHighlight(HighlightReset)]);
    }

    /** handleGenericLine: any other line, byte by byte as it is; line_ ends
        past the line and lineLen_ at -1. */
    method HandleGenericLine()
      requires 0 <= lineLen && line + lineLen == bufLen <= buf.Length
      modifies this`line, this`lineLen, this`out
      ensures line == bufLen && lineLen == -1
      ensures out == old(out) + GenericCalls(buf[old(line)..bufLen])
    {
      var calls := [D.SetColor(Reset), D.SetHighlight(HighlightReset), D.PrintAnsiCodes];
      var p, n := line, lineLen;
      while n != 0
        invariant 0 <= n && p + n == bufLen && line <= p
        invariant calls == GenericCalls(buf[line..p])
        modifies {}
        decreases n
      {
        n := n - 1;
        RawCharsSnoc(buf[line..p], buf[p]);
        assert buf[line..p + 1] == buf[line..p] + [buf[p]];
        calls := calls + [D.PrintCharNoAnsi(buf[p])];
        p := p + 1;
      }
      assert p == bufLen;
      out := out + calls;
      line, lineLen := p, n - 1;
    }

    /** processInput: each complete line of the stream is dispatched in
        turn; the readLine that then finds no line still leaves the
        unterminated rest of the input (and the EOF byte) in the buffer,
        and a block still pending is processed. */
    method ProcessInput()
      requires Idle() && blockRem == None && blockAdd == None
      modifies this`pos, this`eof, this`buf, this`bufSize, this`bufLen, this`line, this`lineLen, buf,
               this`inBlock, this`blockRem, this`blockAdd, this`out
      ensures Buffered()
      ensures Snapshot() == Finish(Load(Run(old(Snapshot()), CompleteLines(old(input[pos..]))), Tail(input, old(pos), old(eof))))
    {
      Begin();
      ghost var goal := Run(Snapshot(), CompleteLines(input[pos..]));
      ghost var tail := Tail(input, pos, eof);
      var more := ReadNext(goal, tail);
      while more
        invariant Buffered() && (buf == old(buf) || fresh(buf))
        invariant Turning(more, goal, tail)
        decreases |input| - pos, more
      {
        more := Turn(goal, tail);
      }
      Drain(goal, tail);
    }

    /** processInput's loop between two turns: a line is loaded; while
        `more`, it is the next complete line, and after the last turn the
        buffer holds what the last readLine left. */
    ghost predicate Turning(more: bool, goal: State, tail: seq<char>)
      reads this, buf
    {
      Loaded() && (more ==> LineRead(input, Snapshot(), pos, eof, goal, tail))
      && (!more ==> Snapshot() == Load(goal, tail))
    }

    /** processInput's start: no block is pending, so inBlock_ is cleared
        without changing the state. */
    method Begin()
      requires Idle() && blockRem == None && blockAdd == None
      modifies this`inBlock
      ensures Idle() && Snapshot() == old(Snapshot())
    {
      inBlock := false;
    }

    /** One turn of processInput's loop: the loaded line dispatched, then
        the next readLine. */
    method Turn(ghost goal: State, ghost tail: seq<char>) returns (more: bool)
      requires Buffered() && Turning(true, goal, tail)
      modifies this`pos, this`eof, this`buf, this`bufSize, this`bufLen, this`line, this`lineLen, buf,
               this`inBlock, this`blockRem, this`blockAdd, this`out
      ensures Buffered() && (buf == old(buf) || fresh(buf)) && Turning(more, goal, tail)
      ensures old(pos) <= pos && (more ==> old(pos) < pos)
    {
      ghost var s0 := Snapshot();
      Dispatch();
      Stepped(input, s0, pos, eof, goal, tail);
      more := ReadNext(goal, tail);
    }

    /** processInput's end: the block still pending when the input runs
        out is processed. */
    method Drain(ghost goal: State, ghost tail: seq<char>)
      requires Turning(false, goal, tail)
      modifies this`out, this`inBlock, this`blockRem, this`blockAdd
      ensures Buffered() && Snapshot() == Finish(Load(goal, tail))
    {
      if inBlock {
        ProcessBlock();
      }
    }

    /** readLine, as processInput's loop sees it: the next complete line
        loaded, or, when there is none, the rest of the input. */
    method ReadNext(ghost goal: State, ghost tail: seq<char>) returns (more: bool)
      requires Buffered() && Reading(input, Snapshot(), pos, eof, goal, tail)
      modifies this`pos, this`eof, this`buf, this`bufSize, this`bufLen, this`line, this`lineLen, buf
      ensures Buffered() && (buf == old(buf) || fresh(buf))
      ensures old(pos) <= pos && (more ==> old(pos) < pos)
      ensures Turning(more, goal, tail)
    {
      ghost var s0, p0, e0 := Snapshot(), pos, eof;
      more := ReadLine();
      Arrived(s0, p0, e0, more, goal, tail);
    }

    /** The state readLine leaves inside processInput's loop. */
    lemma Arrived(s0: State, p0: nat, e0: bool, more: bool, goal: State, tail: seq<char>)
      requires Buffered() && p0 <= |input| && (e0 ==> p0 == |input|) && Reading(input, s0, p0, e0, goal, tail)
      requires var c := Fetched(input, p0, e0);
        Snapshot() == Load(s0, c.text) && pos == c.next && eof == c.atEof && more == !c.atEof
      ensures Turning(more, goal, tail)
    {
      NextRead(input, s0, p0, e0, goal, tail);
    }

    /** One turn of processInput's loop after readLine: the handler search
        with the corrected matcher (Classify.FindHandler), then the generic handler, or the table handler with the pending
        block processed first when the line is no block line, inBlock_ set
        to the handler's blockLine, and the buffer reset unless a block is
        still pending. */
    method Dispatch()
      requires Loaded()
      modifies buf, this`bufLen, this`line, this`lineLen, this`inBlock, this`blockRem, this`blockAdd, this`out
      ensures Buffered() && Snapshot() == Step(old(Snapshot()))
      ensures Idle()
    {
      var i := Classify.FindHandler(buf[line..bufLen]);
      if i == |Classify.Table| {
        DispatchGeneric();
      } else {
        DispatchFound(i);
      }
    }

    /** handleGenericLine for a line no table entry matches. */
    method DispatchGeneric()
      requires Loaded() && Classify.HandlerIndex(Visible(buf[line..bufLen])) == |Classify.Table|
      modifies this`line, this`lineLen, this`out
      ensures Buffered() && Snapshot() == Step(old(Snapshot()))
    {
      ghost var s0 := Snapshot();
      assert s0.text[line..] == buf[line..bufLen];
      HandleGenericLine();
      StepGeneric(s0, Snapshot());
    }

    /** The handler of table entry `i`, which matches the current line. */
    method DispatchFound(i: nat)
      requires Loaded() && i == Classify.HandlerIndex(Visible(buf[line..bufLen])) < |Classify.Table|
      modifies buf, this`bufLen, this`line, this`lineLen, this`inBlock, this`blockRem, this`blockAdd, this`out
      ensures Buffered() && Snapshot() == Step(old(Snapshot()))
    {
      ghost var s0 := Snapshot();
      assert s0.text[line..] == buf[line..bufLen];
      StepFound(s0, i);
      var h := Classify.Table[i];
      assert h.blockLine <==> h.kind.Rem? || h.kind.Add?;
      DispatchTo(h);
    }

    /** The table handler `h` run on the current line. */
    method DispatchTo(h: Classify.LineHandler)
      requires Loaded() && (h.blockLine ==> StripAnsi(buf[line..bufLen]) != [])
      requires h.blockLine <==> h.kind.Rem? || h.kind.Add?
      modifies buf, this`bufLen, this`line, this`lineLen, this`inBlock, this`blockRem, this`blockAdd, this`out
      ensures Buffered() && Snapshot() == Dispatched(old(Snapshot()), h)
    {
      Enter(h.blockLine);
      Callback(h.kind);
      Settle();
    }

    /** The start of a table handler's turn: a pending block is processed
        when the line is no block line, and inBlock_ becomes `blockLine`. */
    method Enter(blockLine: bool)
      requires Loaded()
      modifies this`inBlock, this`blockRem, this`blockAdd, this`out
      ensures Current() && bufLen <= buf.Length
      ensures Snapshot() == (if old(inBlock) && !blockLine then FlushState(old(Snapshot())) else old(Snapshot())).(inBlock := blockLine)
    {
      if inBlock && !blockLine {
        ProcessBlock();
      }
      inBlock := blockLine;
    }

    /** The end of a table handler's turn: resetBuffer unless a block is
        pending. */
    method Settle()
      requires Buffered()
      modifies this`bufLen, this`line, this`lineLen, this`blockRem, this`blockAdd
      ensures Buffered()
      ensures Snapshot() == if old(inBlock) then old(Snapshot())
        else old(Snapshot()).(text := [], line := 0, lineLen := 0, rem := None, add := None)
    {
      if !inBlock {
        ResetBuffer();
      }
    }

    /** lineHandler_[i].callback(this), by the handler's kind. */
    method Callback(kind: Classify.Kind)
      requires Current()
      modifies buf, this`bufLen, this`line, this`lineLen, this`inBlock, this`blockRem, this`blockAdd, this`out
      ensures Buffered() && Snapshot() == Handle(kind, old(Snapshot()))
    {
      if kind.Rem? {
        HandleRemLine();
      } else if kind.Add? {
        HandleAddLine();
      } else {
        HandlePrinted(kind);
      }
    }

    /** The three handlers that print the line and pass over it. */
    method HandlePrinted(kind: Classify.Kind)
      requires Current() && !kind.Rem? && !kind.Add?
      modifies this`line, this`lineLen, this`out
      ensures Buffered() && Snapshot() == Handle(kind, old(Snapshot()))
    {
      ghost var s0 := Snapshot();
      assert s0.text[line..] == buf[line..bufLen];
      match kind {
        case FileInfo => HandleFileInfoLine();
        case RangeInfo => HandleRangeInfoLine();
        case Context => HandleContextLine();
      }
      PrintedLine(s0, kind, Snapshot());
    }

    /** handleRemLine: a '-' line joins the removed side, which starts here
        if it is new; a pending added side is processed first. */
    method HandleRemLine()
      requires Current()
      modifies buf, this`bufLen, this`lineLen, this`inBlock, this`blockRem, this`blockAdd, this`out
      ensures Buffered() && Snapshot() == Handle(Classify.Rem, old(Snapshot()))
    {
      if blockAdd.Some? {
        ProcessBlock();
      }
      if blockRem.None? {
        blockRem := Some(line);
      }
      StripLineAnsi();
    }

    /** handleAddLine: a '+' line joins the added side, which starts here
        if it is new. */
    method HandleAddLine()
      requires Current()
      modifies buf, this`bufLen, this`lineLen, this`blockAdd
      ensures Buffered() && Snapshot() == Handle(Classify.Add, old(Snapshot()))
    {
      if blockAdd.None? {
        blockAdd := Some(line);
      }
      StripLineAnsi();
    }

    /** processBlock: print the pending block, ending at line_, and forget
        it. */
    method ProcessBlock()
      requires line <= bufLen <= buf.Length
      requires blockRem.Some? || blockAdd.Some?
      requires BlockOrder(line, blockRem, blockAdd)
      modifies this`out, this`inBlock, this`blockRem, this`blockAdd
      ensures out == old(out + D.Flush(blockRem, blockAdd, line, buf[..bufLen]))
      ensures !inBlock && blockRem == None && blockAdd == None
      ensures Snapshot() == FlushState(old(Snapshot()))
    {
      var calls := FlushBlock(blockRem, blockAdd, line, buf[..bufLen]);
      inBlock := false;
      out := out + calls;
      blockAdd, blockRem := None, None;
    }
  }

  /** One walk of processBlock's loop over the Blocks, on one side: the
      calls it makes. */
  method EmitSide(ms: seq<Engine.Match>, removed: bool, start: nat, end: nat) returns (calls: seq<D.Call>)
    ensures calls == D.SideCalls(ms, removed, start, end)
  {
    calls := [];
    var s, i := start, 0;
    while i < |ms|
      invariant i <= |ms|
      invariant calls + D.SideCalls(ms[i..], removed, s, end) == D.SideCalls(ms, removed, start, end)
      decreases |ms| - i
    {
      var span := D.SpanOf(ms[i], removed);
      D.SideFrom(ms, i, removed, s, end);
      var step := [D.SetHighlight(On), D.PrintBlock(s, span.from), D.SetHighlight(Off), D.PrintBlock(span.from, span.to)];
      AppendAssoc(calls, step, D.SideCalls(ms[i + 1..], removed, span.to, end));
      calls := calls + step;
      s, i := span.to, i + 1;
    }
    assert ms[i..] == [];
    calls := calls + [D.SetHighlight(On), D.PrintBlock(s, end)];
  }

  /** The calls processBlock makes for a pending block whose removed side
      starts at `rem`, whose added side starts at `add` and which ends at
      `line` in the buffer `text`. */
  method FlushBlock(rem: Option<nat>, add: Option<nat>, line: nat, text: seq<char>) returns (calls: seq<D.Call>)
    requires rem.Some? || add.Some?
    requires rem.Some? && add.Some? ==> rem.value < add.value < line <= |text|
    ensures calls == D.Flush(rem, add, line, text)
  {
    var ms := D.Pending(rem, add, line, text);
    if add.None? {
      calls := [D.SetColor(LineDel), D.PrintBlock(rem.value, line)];
    } else if rem.None? {
      calls := [D.SetColor(LineAdd), D.PrintBlock(add.value, line)];
    } else {
      var removed := EmitSide(ms, true, rem.value, add.value);
      var added := EmitSide(ms, false, add.value, line);
      calls := [D.SetColor(LineDel)] + removed + [D.SetColor(LineAdd)] + added + [D.SetHighlight(Off)];
      FlushBoth(rem.value, add.value, line, ms, removed, added);
    }
  }

  /** The loop of printLineNoAnsi over [from, end) of the buffer's bytes:
      plain bytes are printed, escape runs skipped through their 'm'. */
  method PrintNoAnsi(text: seq<char>, from: nat, end: nat) returns (calls: seq<D.Call>)
    requires from <= end <= |text|
    ensures calls == Chars(StripAnsi(text[from..end]))
  {
    calls := [];
    var p := from;
    while p < end
      invariant from <= p <= end
      invariant calls + Chars(StripAnsi(text[p..end])) == Chars(StripAnsi(text[from..end]))
      decreases end - p
    {
      if text[p] == ESC {
        ghost var p0 := p;
        p := SkipEscape(text, p, end);
        StripEscape(text, p0, end);
      } else {
        PrintPlainStep(calls, text, p, end);
        calls := calls + [D.PrintChar(text[p])];
        p := p + 1;
      }
    }
    assert text[p..end] == [];
  }

  /** The loop of stripLineAnsi over the line `s` at `base`: the kept
      bytes move down to `base`, and the line and buffer lengths drop by
      the bytes of the escape runs; the bytes behind the kept ones are left
      as they were. */
  method StripKept(a: array<char>, ghost s: seq<char>, base: nat, len0: int, total0: int) returns (len: int, total: int)
    requires len0 == |s| && base + len0 == total0 <= a.Length && a[base..total0] == s
    modifies a
    ensures len == |StripAnsi(s)| && base + len == total
    ensures a[..] == old(a[..base]) + StripAnsi(s) + old(a[..])[total..]
  {
    ghost var c0 := a[..];
    ghost var q, kept := 0, [];
    len, total := len0, total0;
    var left, right, i := base, base, 0;
    StripStart(c0, s, base);
    while i < len
      invariant Stripping(a[..], c0, s, base, kept, len, total, left, right, i, q)
      decreases len - i
    {
      if a[right] == ESC {
        len, total, right, q := DropEscape(a, s, c0, base, kept, len, total, left, right, i, q);
      } else {
        MoveKept(a, s, c0, base, kept, len, total, left, right, i, q);
        kept := kept + [s[q]];
        left, right, i, q := left + 1, right + 1, i + 1, q + 1;
      }
    }
    StripDone(a[..], c0, s, base, kept, len, total, left, right, i, q);
  }

  /** Where stripLineAnsi stands over the line `s` first found in `c0` at
      `base`: the `i` bytes of `kept` have moved down to `left`, the bytes
      of `s` from `q` on are still in place and still to be read from
      `right`, and `len` and `total` have lost one per byte dropped. */
  ghost predicate Stripping(c: seq<char>, c0: seq<char>, s: seq<char>, base: nat, kept: seq<char>,
                            len: int, total: int, left: int, right: int, i: nat, q: nat)
  {
    i <= len && base + len == total && left == base + i && len == i + |s| - q && (q < |s| ==> right == base + q)
    && |kept| == i <= q <= |s| && base + |s| <= |c0| == |c| && c0[base..base + |s|] == s
    && c == c0[..base] + kept + c0[base + i..] && kept + StripAnsi(s[q..]) == StripAnsi(s)
  }

  /** Nothing is kept yet and the whole line is still to be read. */
  lemma StripStart(c0: seq<char>, s: seq<char>, base: nat)
    requires base + |s| <= |c0| && c0[base..base + |s|] == s
    ensures Stripping(c0, c0, s, base, [], |s|, base + |s|, base, base, 0, 0)
  {
    assert c0 == c0[..base] + [] + c0[base..];
  }

  /** Once the line is read through, the kept bytes are the stripped line. */
  lemma StripDone(c: seq<char>, c0: seq<char>, s: seq<char>, base: nat, kept: seq<char>,
                  len: int, total: int, left: int, right: int, i: nat, q: nat)
    requires Stripping(c, c0, s, base, kept, len, total, left, right, i, q) && len <= i
    ensures len == |StripAnsi(s)| && base + len == total
    ensures c == c0[..base] + StripAnsi(s) + c0[total..]
  {
    assert s[q..] == [];
  }

  /** An escape run of stripLineAnsi: read past and dropped, nothing moved. */
  method DropEscape(a: array<char>, ghost s: seq<char>, ghost c0: seq<char>, base: nat, ghost kept: seq<char>,
                    len0: int, total0: int, left: nat, right0: nat, i: nat, ghost q0: nat)
    returns (len: int, total: int, right: nat, ghost q: nat)
    requires Stripping(a[..], c0, s, base, kept, len0, total0, left, right0, i, q0) && i < len0 && a[right0] == ESC
    ensures Stripping(a[..], c0, s, base, kept, len, total, left, right, i, q) && len - i < len0 - i
  {
    Unwritten(a[..], c0, base, kept, i, q0, s);
    len, total, right, q := SkipRun(a, s, base, i, len0, total0, right0, q0);
    DropRun(s, q0, q);
  }

  /** `*left++ = *right++` of stripLineAnsi: a byte that starts no escape
      run moves down to the end of the kept bytes. */
  method MoveKept(a: array<char>, ghost s: seq<char>, ghost c0: seq<char>, base: nat, ghost kept: seq<char>,
                  len: int, total: int, left: nat, right: nat, i: nat, ghost q: nat)
    requires Stripping(a[..], c0, s, base, kept, len, total, left, right, i, q) && i < len && a[right] != ESC
    modifies a
    ensures q < |s| && Stripping(a[..], c0, s, base, kept + [s[q]], len, total, left + 1, right + 1, i + 1, q + 1)
  {
    ghost var c := a[..];
    Unwritten(c, c0, base, kept, i, q, s);
    assert c[right] == s[q];
    KeepByte(kept, s, q);
    WriteKept(c, c0, base, kept, i, s[q]);
    a[left] := a[right];
    assert a[..] == c[base + i := s[q]];
  }

  /** The bytes from the current one on are still the line's own. */
  lemma Unwritten(c: seq<char>, c0: seq<char>, base: nat, kept: seq<char>, i: nat, q: nat, s: seq<char>)
    requires i <= q <= |s| && base + |s| <= |c0| && c0[base..base + |s|] == s
    requires |kept| == i && c == c0[..base] + kept + c0[base + i..]
    ensures base + |s| <= |c| && c[base + q..base + |s|] == s[q..]
  {
    assert c[base + q..base + |s|] == c0[base + q..base + |s|];
  }

  /** Moving a kept byte down to the end of the kept bytes. */
  lemma WriteKept(c: seq<char>, c0: seq<char>, base: nat, kept: seq<char>, i: nat, b: char)
    requires |kept| == i && base + i < |c0| && c == c0[..base] + kept + c0[base + i..]
    ensures c[base + i := b] == c0[..base] + (kept + [b]) + c0[base + i + 1..]
  {
  }

  /** The do-while of stripLineAnsi at an ESC: one byte of the line and of
      the buffer dropped per turn, reading on while bytes remain and the
      byte read is not the 'm'; `q` counts the bytes of `s` consumed. */
  method SkipRun(a: array<char>, ghost s: seq<char>, base: nat, i: nat, len0: int, total0: int, right0: nat, ghost q0: nat)
    returns (len: int, total: int, right: nat, ghost q: nat)
    requires q0 < |s| && len0 == i + |s| - q0 && right0 == base + q0 && base + |s| <= a.Length
    requires a[base + q0..base + |s|] == s[q0..]
    ensures q == q0 + ThroughM(s[q0..]) <= |s| && len == i + |s| - q && total == total0 - (q - q0)
    ensures q < |s| ==> right == base + q
  {
    len, total, right, q := len0, total0, right0, q0;
    var more := true;
    while more
      invariant q0 <= q <= |s| && len == i + |s| - q && total == total0 - (q - q0)
      invariant more ==> q - q0 < ThroughM(s[q0..]) && right == base + q
      invariant !more ==> q - q0 == ThroughM(s[q0..]) && (q < |s| ==> right == base + q)
      decreases |s| - q, more
    {
      len, total := len - 1, total - 1;
      ThroughMStep(s[q0..], q - q0);
      q := q + 1;
      if i < len {
        var c := a[right];
        right := right + 1;
        more := c != 'm';
      } else {
        more := false;
      }
    }
  }

  /** processBlock's calls for a block with both sides. */
  lemma FlushBoth(rem: nat, add: nat, line: nat, ms: seq<Engine.Match>, removed: seq<D.Call>, added: seq<D.Call>)
    requires removed == D.SideCalls(ms, true, rem, add) && added == D.SideCalls(ms, false, add, line)
    ensures [D.SetColor(LineDel)] + removed + [D.SetColor(LineAdd)] + added + [D.SetHighlight(Off)]
            == D.FlushCalls(Some(rem), Some(add), line, ms)
  {
  }

  /** The calls of handleRangeInfoLine for the line all[a..e], printed in
      two pieces that meet at `m`. */
  lemma RangeShownOf(all: seq<char>, a: nat, m: nat, e: nat, text: seq<char>, r: nat, range: seq<D.Call>, heading: seq<D.Call>)
    requires a <= m <= e <= |all|
    requires text == all[a..e]
    requires m == a + r
    requires r == RangeLen(text)
    requires range == Chars(StripAnsi(all[a..m]))
    requires heading == Chars(StripAnsi(all[m..e]))
    ensures RangeFramed(range, heading) == RangeShown(text)
  {
    assert all[a..e][..r] == all[a..m] && all[a..e][r..] == all[m..e];
  }

  lemma CharsCons(c: char, t: seq<char>)
    ensures Chars([c] + t) == [D.PrintChar(c)] + Chars(t)
  {
    assert ([c] + t)[1..] == t;
  }

  /** Printing a byte that starts no escape run. */
  lemma PrintPlainStep(o: seq<D.Call>, text: seq<char>, p: nat, e: nat)
    requires p < e <= |text| && text[p] != ESC
    ensures (o + [D.PrintChar(text[p])]) + Chars(StripAnsi(text[p + 1..e])) == o + Chars(StripAnsi(text[p..e]))
  {
    StripPlain(text, p, e);
    CharsCons(text[p], StripAnsi(text[p + 1..e]));
    AppendAssoc(o, [D.PrintChar(text[p])], Chars(StripAnsi(text[p + 1..e])));
  }

  /** Skipping the escape run at `q0` leaves the stripped rest unchanged. */
  lemma DropRun(s: seq<char>, q0: nat, q: nat)
    requires q0 < |s| && s[q0] == ESC && q == q0 + ThroughM(s[q0..])
    ensures q <= |s| && StripAnsi(s[q..]) == StripAnsi(s[q0..])
  {
    var t := s[q0..];
    assert t[0] == ESC && t[ThroughM(t)..] == s[q..];
  }

  /** Keeping a byte that starts no escape run. */
  lemma KeepByte(kept: seq<char>, s: seq<char>, q: nat)
    requires q < |s| && s[q] != ESC
    ensures (kept + [s[q]]) + StripAnsi(s[q + 1..]) == kept + StripAnsi(s[q..])
  {
    var t := s[q..];
    assert t[0] == s[q] && t[1..] == s[q + 1..];
    AppendAssoc(kept, [s[q]], StripAnsi(s[q + 1..]));
  }

  lemma RawCharsSnoc(s: seq<char>, c: char)
    ensures RawChars(s + [c]) == RawChars(s) + [D.PrintCharNoAnsi(c)]
  {
  }
}
