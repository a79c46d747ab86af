/** What one turn of processInput's loop (src/diffparser.cpp:86-115) does
    to the parser's state, case by case: a generic line, a recognised line
    that is no block line, a block line, and the '-' line that follows a
    '+' block.  Together with Parser.Finish these say when the pending
    block is processed. */
module Steps {
  import opened Wrappers
  import opened Ansi
  import opened Parser
  import Classify
  import D = Directives

  /** The handler table entry the current line goes to, or |Table|. */
  function Entry(s: State): nat
    requires s.line <= |s.text|
  {
    Classify.HandlerIndex(Visible(s.text[s.line..]))
  }

  /** A line no table entry matches goes to handleGenericLine: the block
      stays pending, the buffer is not reset, nothing is flushed, and the
      line's bytes are printed as they are after the pending escape codes. */
  lemma GenericLineKeepsBlock(s: State)
    requires Ready(s) && (s.inBlock <==> s.rem.Some? || s.add.Some?)
    requires Entry(s) == |Classify.Table|
    ensures var r := Step(s);
      r.text == s.text && r.inBlock == s.inBlock && r.rem == s.rem && r.add == s.add
      && r.out == s.out + GenericCalls(s.text[s.line..]) && r.line == |s.text| && r.lineLen == -1
  {
  }

  /** A recognised line that is no block line ("---", "+++", "@@", " "):
      the pending block, if any, is processed first, then the line's
      handler prints it, and the buffer is reset with no block pending. */
  lemma NonBlockLineFlushes(s: State)
    requires Ready(s) && (s.inBlock <==> s.rem.Some? || s.add.Some?)
    requires Entry(s) < |Classify.Table| && !Classify.Table[Entry(s)].blockLine
    ensures var r := Step(s);
      r.text == [] && r.line == 0 && r.lineLen == 0 && !r.inBlock && r.rem == None && r.add == None
      && r.out == s.out + Flushed(s.rem, s.add, s.line, s.text)
                        + Handled(Classify.Table[Entry(s)].kind, s.text[s.line..])
  {
    var h := Classify.Table[Entry(s)];
    var s1 := if s.inBlock then FlushState(s) else s;
    assert Step(s) == Dispatched(s, h);
    assert s1.out == s.out + Flushed(s.rem, s.add, s.line, s.text);
    assert s1.text == s.text && s1.line == s.line;
  }

  /** A '-' line with no added side pending, or a '+' line: the line, its
      escape runs stripped, joins the block, which starts at the line when
      that side is new; nothing is printed and the buffer is kept. */
  lemma BlockLineJoins(s: State)
    requires Ready(s) && (s.inBlock <==> s.rem.Some? || s.add.Some?)
    requires Entry(s) < |Classify.Table| && Classify.Table[Entry(s)].blockLine
    requires Classify.Table[Entry(s)].kind.Rem? ==> s.add.None?
    ensures var r, removed := Step(s), Classify.Table[Entry(s)].kind.Rem?;
      r.inBlock && r.out == s.out && r.line == s.line
      && r.text == s.text[..s.line] + StripAnsi(s.text[s.line..]) && r.lineLen == |StripAnsi(s.text[s.line..])|
      && r.rem == (if removed && s.rem.None? then Some(s.line) else s.rem)
      && r.add == (if !removed && s.add.None? then Some(s.line) else s.add)
  {
    var h := Classify.Table[Entry(s)];
    VisiblePrefixOfStripped(s.text[s.line..]);
    assert Step(s) == Dispatched(s, h);
  }

  /** A '-' line after a '+' block: handleRemLine processes the block, which
      clears inBlock_, so processInput then resets the buffer and the '-'
      line is lost: it is neither printed nor kept as the start of a new
      removed side. */
  lemma RemovedLineAfterAddedBlockIsDropped(s: State)
    requires Ready(s) && (s.inBlock <==> s.rem.Some? || s.add.Some?)
    requires Entry(s) < |Classify.Table| && Classify.Table[Entry(s)].kind.Rem? && s.add.Some?
    ensures var r := Step(s);
      r.text == [] && r.line == 0 && r.lineLen == 0 && !r.inBlock && r.rem == None && r.add == None
      && r.out == s.out + D.Flush(s.rem, s.add, s.line, s.text)
  {
    var h := Classify.Table[Entry(s)];
    VisiblePrefixOfStripped(s.text[s.line..]);
    assert Step(s) == Dispatched(s, h);
  }

  /** The end of the input: the pending block is processed exactly when
      inBlock_ is set, and nothing else changes but the calls made. */
  lemma FinishFlushesPending(s: State)
    requires Ready(s) && (s.inBlock <==> s.rem.Some? || s.add.Some?)
    ensures var r := Finish(s);
      r.text == s.text && r.line == s.line && r.lineLen == s.lineLen
      && !r.inBlock && r.rem == None && r.add == None
      && r.out == s.out + Flushed(s.rem, s.add, s.line, s.text)
  {
  }
}
