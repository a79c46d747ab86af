/** The line classifier of src/diffparser.cpp: the handler table
    lineHandler_ (33-42) and the first-match search of processInput (93-95). */
module Classify {
  import opened Wrappers
  import opened Ansi

  /** The handler callbacks of the table; a line no entry matches goes to the
      generic handler instead. */
  datatype Kind = FileInfo | RangeInfo | Context | Rem | Add

  datatype LineHandler = LineHandler(identifier: seq<char>, kind: Kind, blockLine: bool)

  /** lineHandler_, in its priority order. */
  const Table: seq<LineHandler> := [
    LineHandler("---", FileInfo, false),
    LineHandler("+++", FileInfo, false),
    LineHandler("@@", RangeInfo, false),
    LineHandler(" ", Context, false),
    LineHandler("-", Rem, true),
    LineHandler("+", Add, true)
  ]

  /** Index of the first table entry whose identifier starts the visible text
      `v`, or |Table| (the generic handler) when none does. */
  function HandlerIndex(v: seq<char>, from: nat := 0): (i: nat)
    requires from <= |Table|
    ensures from <= i <= |Table|
    ensures i < |Table| ==> Table[i].identifier <= v
    ensures forall j :: from <= j < i ==> !(Table[j].identifier <= v)
    decreases |Table| - from
  {
    if from == |Table| then from
    else if Table[from].identifier <= v then from
    else HandlerIndex(v, from + 1)
  }

  /** The search loop of processInput: tries the table entries in order with
      the corrected handlerForLine (Ansi.HandlerForLine, whose budget never
      goes below zero), the budget being the line's length. A line whose
      budget ends inside an escape run is therefore classified by its own
      visible bytes, not by the stale bytes the code as written reads past
      it (Ansi.HandlerAsWrittenOverrunsLine). */
  method FindHandler(line: seq<char>) returns (i: nat)
    ensures i == HandlerIndex(Visible(line))
  {
    i := 0;
    var found := false;
    while i < |Table| && !found
      invariant i <= |Table|
      invariant forall j :: 0 <= j < i ==> !(Table[j].identifier <= Visible(line))
      invariant found ==> i < |Table| && Table[i].identifier <= Visible(line)
      decreases |Table| - i, !found
    {
      assert line[..|line|] == line;
      found := HandlerForLine(line, Table[i].identifier, |line|);
      if !found {
        i := i + 1;
      }
    }
    HandlerIndexIsFirst(Visible(line), i);
  }

  /** The first-match characterisation determines the index. */
  lemma {:induction false} HandlerIndexIsFirst(v: seq<char>, i: nat)
    requires i <= |Table|
    requires i < |Table| ==> Table[i].identifier <= v
    requires forall j :: 0 <= j < i ==> !(Table[j].identifier <= v)
    ensures i == HandlerIndex(v)
  {
  }

  /** What each handler receives, stated on the visible text: "---" and "+++"
      take priority over "-" and "+", and every line that starts with none of
      the identifiers is generic. */
  lemma HandlerByPrefix(v: seq<char>)
    ensures HandlerIndex(v) <= 1 <==> "---" <= v || "+++" <= v
    ensures HandlerIndex(v) == 2 <==> "@@" <= v
    ensures HandlerIndex(v) == 3 <==> " " <= v
    ensures HandlerIndex(v) == 4 <==> "-" <= v && !("---" <= v)
    ensures HandlerIndex(v) == 5 <==> "+" <= v && !("+++" <= v)
    ensures HandlerIndex(v) == |Table| <==> !("-" <= v || "+" <= v || " " <= v || "@@" <= v)
  {
    FirstChar("---", v); FirstChar("+++", v); FirstChar("@@", v);
    FirstChar(" ", v); FirstChar("-", v); FirstChar("+", v);
    assert "---" <= v ==> "-" <= v;
    assert "+++" <= v ==> "+" <= v;
    assert HandlerIndex(v, 5) == if "+" <= v then 5 else 6;
    assert HandlerIndex(v, 4) == if "-" <= v then 4 else HandlerIndex(v, 5);
    assert HandlerIndex(v, 3) == if " " <= v then 3 else HandlerIndex(v, 4);
    assert HandlerIndex(v, 2) == if "@@" <= v then 2 else HandlerIndex(v, 3);
    assert HandlerIndex(v, 1) == if "+++" <= v then 1 else HandlerIndex(v, 2);
    assert HandlerIndex(v, 0) == if "---" <= v then 0 else HandlerIndex(v, 1);
  }

  lemma FirstChar(id: seq<char>, v: seq<char>)
    requires |id| >= 1
    ensures id <= v ==> |v| >= 1 && v[0] == id[0]
    ensures |id| == 1 ==> (id <= v <==> |v| >= 1 && v[0] == id[0])
  {
    if |id| == 1 && |v| >= 1 && v[0] == id[0] {
      assert v[..1] == id;
    }
  }

  /** Any number of well-formed escape sequences in front of a line change
      neither its classification nor the text kept for the block. */
  lemma {:induction false} LeadingEscapesKeepHandler(es: seq<seq<char>>, s: seq<char>)
    requires forall k :: 0 <= k < |es| ==> IsEscape(es[k])
    ensures Visible(Concat(es) + s) == Visible(s)
    ensures HandlerIndex(Visible(Concat(es) + s)) == HandlerIndex(Visible(s))
    ensures StripAnsi(Concat(es) + s) == StripAnsi(s)
  {
    if es == [] {
      assert Concat(es) + s == s;
    } else {
      LeadingEscapesKeepHandler(es[1..], s);
      assert Concat(es) + s == es[0] + (Concat(es[1..]) + s);
      LeadingEscapeInvisible(es[0], Concat(es[1..]) + s);
    }
  }

  /** Text without escape or NUL bytes is visible as it is, up to a NUL. */
  lemma {:induction false} VisibleUpToNul(s: seq<char>, t: seq<char>)
    requires ESC !in s && NUL !in s
    ensures Visible(s) == s
    ensures Visible(s + [NUL] + t) == s
  {
    if s != [] {
      assert (s + [NUL] + t)[1..] == s[1..] + [NUL] + t;
      VisibleUpToNul(s[1..], t);
    } else {
      assert s + [NUL] + t == [NUL] + t;
    }
  }

  /** One step of reading a line: a well-formed escape sequence is invisible. */
  lemma EscapeStep(e: seq<char>, t: seq<char>, x: seq<char>)
    requires IsEscape(e) && x == e + t
    ensures Visible(x) == Visible(t)
  {
    LeadingEscapeInvisible(e, t);
  }

  /** One step of reading a line: a plain byte is visible as it is. */
  lemma PlainStep(c: char, t: seq<char>, x: seq<char>)
    requires c != ESC && c != NUL && x == [c] + t
    ensures Visible(x) == [c] + Visible(t)
  {
    assert x[0] == c && x[1..] == t;
  }

  /** First case of the source's unit test (src/test/input.cpp:20-25): "---"
      matches with a budget of the array's size (`k` = 0) or one less, not two
      less. */
  lemma HandlerTestPlain(line: seq<char>, k: nat, n: nat)
    requires line == "---" + [NUL] && k <= 2 && n == |line| - k
    ensures "---" <= Visible(line[..n]) <==> k <= 1
  {
    DashesVisible(line);
    DashesPrefix(Visible(line[..4]), Visible(line[..3]), Visible(line[..2]));
  }

  /** The dashes of the unit test, cut after four, three and two bytes. */
  lemma DashesVisible(d: seq<char>)
    requires d == "---" + [NUL]
    ensures Visible(d[..4]) == "---" && Visible(d[..3]) == "---" && Visible(d[..2]) == "--"
  {
    VisibleUpToNul("---", []);
    VisibleUpToNul("--", []);
    assert d[..4] == "---" + [NUL] + [] && d[..3] == "---" && d[..2] == "--";
  }

  /** How the identifier "---" compares with the visible text of the three
      cuts of the test. */
  lemma DashesPrefix(v4: seq<char>, v3: seq<char>, v2: seq<char>)
    requires v4 == "---" && v3 == "---" && v2 == "--"
    ensures "---" <= v4 && "---" <= v3 && !("---" <= v2)
  {
  }

  /** Second case (src/test/input.cpp:27-32), for any three well-formed
      escape sequences before the dashes (the test uses "\e33;12;11;11m",
      "\e33m" and "\em"); the array ends in its terminating NUL. */
  lemma HandlerTestLeadingEscapes(e1: seq<char>, e2: seq<char>, e3: seq<char>, line: seq<char>, k: nat, n: nat)
    requires IsEscape(e1) && IsEscape(e2) && IsEscape(e3)
    requires line == e1 + e2 + e3 + ("---" + [NUL]) && k <= 2 && n == |line| - k
    ensures "---" <= Visible(line[..n]) <==> k <= 1
  {
    var d := "---" + [NUL];
    LeadingCut(e1, e2, e3, d, line, 4 - k, n);
    DashesVisible(d);
    DashesPrefix(Visible(d[..4]), Visible(d[..3]), Visible(d[..2]));
  }

  /** Leading escapes are invisible whatever part of the text after them the
      budget covers. */
  lemma LeadingCut(e1: seq<char>, e2: seq<char>, e3: seq<char>, d: seq<char>, line: seq<char>, j: nat, m: nat)
    requires IsEscape(e1) && IsEscape(e2) && IsEscape(e3)
    requires line == e1 + e2 + e3 + d && j <= |d| && m == |line| - |d| + j
    ensures Visible(line[..m]) == Visible(d[..j])
  {
    var x3 := e3 + d[..j];
    var x2 := e2 + x3;
    var x1 := e1 + x2;
    assert line[..m] == x1;
    EscapeStep(e3, d[..j], x3);
    EscapeStep(e2, x3, x2);
    EscapeStep(e1, x2, x1);
  }

  /** Third case (src/test/input.cpp:34-39), for any three well-formed escape
      sequences between the dashes. */
  lemma HandlerTestMixedEscapes(e1: seq<char>, e2: seq<char>, e3: seq<char>, line: seq<char>, k: nat, n: nat)
    requires IsEscape(e1) && IsEscape(e2) && IsEscape(e3)
    requires line == e1 + "-" + e2 + "-" + e3 + ("-" + [NUL]) && k <= 2 && n == |line| - k
    ensures "---" <= Visible(line[..n]) <==> k <= 1
  {
    var d := "-" + [NUL];
    MixedCut(e1, e2, e3, d, line, 2 - k, n);
    DashVisible(d);
    MixedPrefix(Visible(d[..2]), Visible(d[..1]), Visible(d[..0]));
  }

  /** The last dash of the mixed test, cut after two, one and no bytes. */
  lemma DashVisible(d: seq<char>)
    requires d == "-" + [NUL]
    ensures Visible(d[..2]) == "-" && Visible(d[..1]) == "-" && Visible(d[..0]) == []
  {
    VisibleUpToNul("-", []);
    assert d[..2] == "-" + [NUL] + [] && d[..1] == "-" && d[..0] == [];
  }

  /** How "---" compares with two dashes followed by each cut of the last. */
  lemma MixedPrefix(w2: seq<char>, w1: seq<char>, w0: seq<char>)
    requires w2 == "-" && w1 == "-" && w0 == []
    ensures "---" <= "--" + w2 && "---" <= "--" + w1 && !("---" <= "--" + w0)
  {
    assert "--" + w2 == "---" && "--" + w0 == "--";
  }

  /** Escapes between the dashes are invisible whatever part of the last
      dash and the NUL the budget covers. */
  lemma MixedCut(e1: seq<char>, e2: seq<char>, e3: seq<char>, d: seq<char>, line: seq<char>, j: nat, m: nat)
    requires IsEscape(e1) && IsEscape(e2) && IsEscape(e3)
    requires line == e1 + "-" + e2 + "-" + e3 + d && j <= |d| && m == |line| - |d| + j
    ensures Visible(line[..m]) == "--" + Visible(d[..j])
  {
    var x5 := e3 + d[..j];
    var x4 := ['-'] + x5;
    var x3 := e2 + x4;
    var x2 := ['-'] + x3;
    var x1 := e1 + x2;
    assert line[..m] == x1;
    EscapeStep(e3, d[..j], x5);
    PlainStep('-', x5, x4);
    EscapeStep(e2, x4, x3);
    PlainStep('-', x3, x2);
    EscapeStep(e1, x2, x1);
    assert "--" + Visible(d[..j]) == ['-'] + (['-'] + Visible(d[..j]));
  }

  /** The escape sequences of the unit test are well formed. */
  lemma TestEscapes()
    ensures IsEscape([ESC] + "33;12;11;11m") && IsEscape([ESC] + "33m") && IsEscape([ESC] + "m")
  {
  }
}
