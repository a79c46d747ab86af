/** Escape-sequence handling shared by the line classifier and the block
    accumulator of src/diffparser.cpp: the loose recognition of SGR controls
    (section 8.3.117 of ECMA-48) as "ESC, then every byte up to and including
    the first 'm'", the prefix matcher handlerForLine, and the text that
    stripLineAnsi leaves. */
module Ansi {
  import opened Wrappers

  const ESC: char := 27 as char
  const NUL: char := 0 as char

  /** Number of bytes from the head of `s` up to and including the first 'm',
      or all of `s` when it holds no 'm'. At an ESC this is the length of the
      escape run: the ESC itself is read first and is not an 'm'. */
  function ThroughM(s: seq<char>): (k: nat)
    ensures k <= |s|
    ensures s != [] ==> 1 <= k
    ensures forall i :: 0 <= i < k - 1 ==> s[i] != 'm'
    ensures k < |s| ==> s[k - 1] == 'm'
    ensures 0 < k && s[k - 1] != 'm' ==> k == |s|
  {
    if s == [] then 0
    else if s[0] == 'm' then 1
    else 1 + ThroughM(s[1..])
  }

  /** The bytes a line keeps once every escape run is removed (the effect of
      stripLineAnsi, src/diffparser.cpp:165-182, and of printLineNoAnsi's
      skipping). A run that never meets an 'm' extends to the end of the line. */
  function StripAnsi(s: seq<char>): (r: seq<char>)
    ensures |r| <= |s|
    ensures ESC !in r
    decreases |s|
  {
    if s == [] then []
    else if s[0] == ESC then StripAnsi(s[ThroughM(s)..])
    else [s[0]] + StripAnsi(s[1..])
  }

  /** StripAnsi of a range [p, n) of `line` that starts at an ESC drops the
      escape run, which ends inside the range. */
  lemma StripEscape(line: seq<char>, p: nat, n: nat)
    requires p < n <= |line| && line[p] == ESC
    ensures p + ThroughM(line[p..n]) <= n
    ensures StripAnsi(line[p..n]) == StripAnsi(line[p + ThroughM(line[p..n])..n])
  {
    assert line[p..n][ThroughM(line[p..n])..] == line[p + ThroughM(line[p..n])..n];
  }

  /** StripAnsi of a range that starts at any other byte keeps that byte. */
  lemma StripPlain(line: seq<char>, p: nat, n: nat)
    requires p < n <= |line| && line[p] != ESC
    ensures StripAnsi(line[p..n]) == [line[p]] + StripAnsi(line[p + 1..n])
  {
    assert line[p..n][0] == line[p] && line[p..n][1..] == line[p + 1..n];
  }

  /** Reading an escape run byte by byte: the j-th byte read ends the run
      when it is an 'm' or the last byte. */
  lemma ThroughMStep(t: seq<char>, j: nat)
    requires j < ThroughM(t)
    ensures t[j] == 'm' ==> ThroughM(t) == j + 1
    ensures t[j] != 'm' && j + 1 < |t| ==> j + 1 < ThroughM(t)
    ensures j + 1 == |t| ==> ThroughM(t) == |t|
  {
  }

  /** The bytes handlerForLine compares against an identifier when its budget
      is the whole of `s`: escape runs are skipped (their bytes still spend the
      budget) and the scan stops at a NUL byte. */
  function Visible(s: seq<char>): (r: seq<char>)
    ensures |r| <= |s|
    ensures ESC !in r && NUL !in r
    decreases |s|
  {
    if s == [] || s[0] == NUL then []
    else if s[0] == ESC then Visible(s[ThroughM(s)..])
    else [s[0]] + Visible(s[1..])
  }

  /** The escape-skipping loop of handlerForLine, entered at an ESC with the
      budget `n - p0` left, stopping after the first 'm' or when the budget is
      spent (never below zero). */
  method SkipEscape(line: seq<char>, p0: nat, n: nat) returns (p: nat)
    requires p0 < n <= |line|
    ensures p == p0 + ThroughM(line[p0..n])
  {
    p := p0;
    var done := false;
    while p < n && !done
      invariant p0 <= p <= n
      invariant !done ==> ThroughM(line[p0..n]) == (p - p0) + ThroughM(line[p..n])
      invariant done ==> ThroughM(line[p0..n]) == p - p0
      decreases n - p
    {
      assert line[p..n][1..] == line[p + 1..n];
      done := line[p] == 'm';
      p := p + 1;
    }
  }

  /** handlerForLine (src/diffparser.cpp:70-84) with the budget kept at zero
      once it is spent inside an escape run: true exactly when `id` is a prefix
      of the visible bytes among the first `n` bytes of `line`. */
  method HandlerForLine(line: seq<char>, id: seq<char>, n: int) returns (r: bool)
    requires 0 <= n <= |line|
    requires NUL !in id
    ensures r <==> id <= Visible(line[..n])
  {
    var p, k := 0, 0;
    assert line[..n] == line[0..n];
    while p < n && line[p] != NUL && k < |id|
      invariant 0 <= p <= n && k <= |id|
      invariant Scanned(line, n, id, k, p)
      decreases n - p
    {
      if line[p] == ESC {
        var q := SkipEscape(line, p, n);
        ScannedEscape(line, n, id, k, p, q);
        p := q;
      } else if line[p] != id[k] {
        ScannedMismatch(line, n, id, k, p);
        return false;
      } else {
        ScannedMatch(line, n, id, k, p);
        p, k := p + 1, k + 1;
      }
    }
    if k < |id| {
      assert p < n ==> line[p] == NUL;
      VisibleEnds(line, p, n);
      assert |Visible(line[..n])| == k;
    } else {
      assert id[..k] == id;
    }
    r := k == |id|;
  }

  /** Loop invariant of HandlerForLine: the first `k` bytes of `id` matched
      the visible bytes before position `p`. */
  ghost predicate Scanned(line: seq<char>, n: nat, id: seq<char>, k: nat, p: nat)
    requires p <= n <= |line| && k <= |id|
  {
    Visible(line[..n]) == id[..k] + Visible(line[p..n])
  }

  lemma ScannedEscape(line: seq<char>, n: nat, id: seq<char>, k: nat, p: nat, q: nat)
    requires p < n <= |line| && k <= |id| && line[p] == ESC
    requires q == p + ThroughM(line[p..n])
    requires Scanned(line, n, id, k, p)
    ensures q <= n && Scanned(line, n, id, k, q)
  {
    VisibleEscape(line, p, n, q);
  }

  lemma ScannedMismatch(line: seq<char>, n: nat, id: seq<char>, k: nat, p: nat)
    requires p < n <= |line| && k < |id| && line[p] != ESC && line[p] != NUL && line[p] != id[k]
    requires Scanned(line, n, id, k, p)
    ensures !(id <= Visible(line[..n]))
  {
    VisiblePlain(line, p, n);
    PrefixMismatch(id, k, Visible(line[p + 1..n]), line[p]);
  }

  lemma ScannedMatch(line: seq<char>, n: nat, id: seq<char>, k: nat, p: nat)
    requires p < n <= |line| && k < |id| && line[p] != ESC && line[p] != NUL && line[p] == id[k]
    requires Scanned(line, n, id, k, p)
    ensures Scanned(line, n, id, k + 1, p + 1)
  {
    VisiblePlain(line, p, n);
    ConsShift(id[..k], id[k], Visible(line[p + 1..n]));
    assert id[..k + 1] == id[..k] + [id[k]];
  }

  lemma ConsShift(a: seq<char>, c: char, t: seq<char>)
    ensures a + ([c] + t) == (a + [c]) + t
  {
  }

  lemma VisibleEscape(line: seq<char>, p: nat, n: nat, q: nat)
    requires p < n <= |line| && line[p] == ESC && q == p + ThroughM(line[p..n])
    ensures q <= n && Visible(line[p..n]) == Visible(line[q..n])
  {
    var rest := line[p..n];
    assert rest[0] == ESC;
    assert rest[q - p..] == line[q..n];
  }

  lemma VisiblePlain(line: seq<char>, p: nat, n: nat)
    requires p < n <= |line| && line[p] != NUL && line[p] != ESC
    ensures Visible(line[p..n]) == [line[p]] + Visible(line[p + 1..n])
  {
    var rest := line[p..n];
    assert rest[0] == line[p];
    assert rest[1..] == line[p + 1..n];
  }

  lemma VisibleEnds(line: seq<char>, p: nat, n: nat)
    requires p <= n <= |line| && (p == n || line[p] == NUL)
    ensures Visible(line[p..n]) == []
  {
    if p < n {
      assert line[p..n][0] == line[p];
    }
  }

  lemma PrefixMismatch(id: seq<char>, k: nat, v: seq<char>, c: char)
    requires k < |id| && c != id[k]
    ensures !(id <= id[..k] + ([c] + v))
  {
    assert (id[..k] + ([c] + v))[k] == c;
  }

  /** handlerForLine exactly as written. `mem` is all the memory readable from
      `line` on, and `n` the signed budget. `while(n-- && *line++ != 'm')`
      leaves `n` at -1 when the budget runs out inside an escape run, and a
      negative budget never stops the outer loop again. None: the scan reads
      past `mem`, which is undefined behaviour in C. */
  function HandlerAsWritten(mem: seq<char>, id: seq<char>, n: int): (r: Option<bool>)
    ensures id == [] && n == 0 ==> r == Some(true)
    decreases |mem|, 0
  {
    if n == 0 then Some(id == [])
    else if mem == [] then None
    else if mem[0] == NUL || id == [] then Some(id == [])
    else if mem[0] == ESC then EscapeAsWritten(mem[1..], id, n - 1)
    else if mem[0] != id[0] then Some(false)
    else HandlerAsWritten(mem[1..], id[1..], n - 1)
  }

  /** The escape-skipping loop of handlerForLine as written, entered after the
      ESC byte has been read. */
  function EscapeAsWritten(mem: seq<char>, id: seq<char>, n: int): Option<bool>
    decreases |mem|, 1
  {
    if n == 0 then HandlerAsWritten(mem, id, -1)
    else if mem == [] then None
    else if mem[0] == 'm' then HandlerAsWritten(mem[1..], id, n - 1)
    else EscapeAsWritten(mem[1..], id, n - 1)
  }

  /** Every escape run of `s` ends in an 'm' inside `s`: the budget of
      handlerForLine never runs out in the middle of one. */
  predicate RunsClosed(s: seq<char>)
    decreases |s|
  {
    if s == [] then true
    else if s[0] == ESC then s[ThroughM(s) - 1] == 'm' && 1 < ThroughM(s) && RunsClosed(s[ThroughM(s)..])
    else RunsClosed(s[1..])
  }

  /** When the budget never ends inside an escape run, the code as written
      reads only the first `n` bytes and agrees with HandlerForLine. */
  lemma {:induction false} AsWrittenAgreesWhenRunsClosed(mem: seq<char>, id: seq<char>, n: nat)
    requires n <= |mem| && NUL !in id
    requires RunsClosed(mem[..n])
    ensures HandlerAsWritten(mem, id, n) == Some(id <= Visible(mem[..n]))
    decreases n
  {
    var s := mem[..n];
    if n == 0 {
    } else if mem[0] == NUL || id == [] {
      assert s[0] == mem[0];
    } else if mem[0] == ESC {
      var k := ThroughM(s);
      AsWrittenEscapeStep(mem, id, n, k);
      AsWrittenAgreesWhenRunsClosed(mem[k..], id, n - k);
    } else {
      if mem[0] == id[0] {
        assert s[0] == mem[0] && s[1..] == mem[1..][..n - 1];
        AsWrittenAgreesWhenRunsClosed(mem[1..], id[1..], n - 1);
      }
      AsWrittenPlainStep(mem, id, n);
    }
  }

  lemma AsWrittenEscapeStep(mem: seq<char>, id: seq<char>, n: nat, k: nat)
    requires 0 < n <= |mem| && NUL !in id && id != [] && mem[0] == ESC
    requires RunsClosed(mem[..n]) && k == ThroughM(mem[..n])
    ensures 1 < k <= n && RunsClosed(mem[k..][..n - k])
    ensures HandlerAsWritten(mem, id, n) == HandlerAsWritten(mem[k..], id, n - k)
    ensures Visible(mem[..n]) == Visible(mem[k..][..n - k])
  {
    var s := mem[..n];
    assert s[0] == ESC;
    assert RunsClosed(s[k..]) && 1 < k && mem[k - 1] == 'm';
    EscapeClosedAsWritten(mem, id, n, 1);
    assert s[k..] == mem[k..][..n - k];
  }

  lemma AsWrittenPlainStep(mem: seq<char>, id: seq<char>, n: nat)
    requires 0 < n <= |mem| && NUL !in id && id != []
    requires mem[0] != NUL && mem[0] != ESC
    requires RunsClosed(mem[..n])
    requires mem[0] == id[0] ==>
             HandlerAsWritten(mem[1..], id[1..], n - 1) == Some(id[1..] <= Visible(mem[1..][..n - 1]))
    ensures HandlerAsWritten(mem, id, n) == Some(id <= Visible(mem[..n]))
  {
    var s := mem[..n];
    assert s[0] == mem[0];
    assert s[1..] == mem[1..][..n - 1];
    assert Visible(s) == [s[0]] + Visible(s[1..]);
    if mem[0] == id[0] {
      assert id <= Visible(s) <==> id[1..] <= Visible(s[1..]);
    } else {
      assert !(id <= Visible(s));
    }
  }

  /** Helper: inside a closed run, the escape loop as written stops at the 'm'
      with a positive budget left or exactly none. */
  lemma {:induction false} EscapeClosedAsWritten(mem: seq<char>, id: seq<char>, n: nat, i: nat)
    requires 0 < i < n <= |mem| && mem[0] == ESC
    requires 1 < ThroughM(mem[..n]) && mem[ThroughM(mem[..n]) - 1] == 'm' && i < ThroughM(mem[..n])
    ensures EscapeAsWritten(mem[i..], id, n - i)
         == HandlerAsWritten(mem[ThroughM(mem[..n])..], id, n - ThroughM(mem[..n]))
    decreases n - i
  {
    var k := ThroughM(mem[..n]);
    assert mem[i..][0] == mem[i] && mem[i..][1..] == mem[i + 1..];
    if i < k - 1 {
      assert mem[..n][i] == mem[i];
      EscapeClosedAsWritten(mem, id, n, i + 1);
    }
  }

  /** The budget overrun the previous lemma rules out does occur: a line made
      of ESC and its newline, read into a buffer that still holds "---\n" from
      an earlier "@@---\n" line, is taken for a "---" file header by the code as
      written, while its visible text is empty. */
  lemma HandlerAsWrittenOverrunsLine()
    ensures HandlerAsWritten([ESC, '\n', '-', '-', '-', '\n'], "---", 2) == Some(true)
    ensures !("---" <= Visible([ESC, '\n']))
  {
    var mem := [ESC, '\n', '-', '-', '-', '\n'];
    assert HandlerAsWritten(['\n'], [], -4) == Some(true);
    assert HandlerAsWritten(['-', '\n'], "-", -3) == Some(true);
    assert HandlerAsWritten(['-', '-', '\n'], "--", -2) == Some(true);
    assert HandlerAsWritten(['-', '-', '-', '\n'], "---", -1) == Some(true);
    assert EscapeAsWritten(['-', '-', '-', '\n'], "---", 0) == Some(true);
    assert EscapeAsWritten(mem[1..], "---", 1) == Some(true);
    assert ThroughM([ESC, '\n']) == 2;
    assert Visible([ESC, '\n']) == Visible([]);
  }

  /** What the classifier sees is what the block accumulator keeps: the visible
      bytes are a prefix of the stripped line. */
  lemma {:induction false} VisiblePrefixOfStripped(s: seq<char>)
    ensures Visible(s) <= StripAnsi(s)
    decreases |s|
  {
    if s == [] || s[0] == NUL {
    } else if s[0] == ESC {
      VisiblePrefixOfStripped(s[ThroughM(s)..]);
    } else {
      VisiblePrefixOfStripped(s[1..]);
    }
  }

  /** A well-formed escape sequence: ESC, then bytes up to and including the
      first 'm', which is its last byte. */
  predicate IsEscape(e: seq<char>)
  {
    2 <= |e| && e[0] == ESC && e[|e| - 1] == 'm' && ThroughM(e) == |e|
  }

  /** A well-formed escape sequence in front of a line changes neither what the
      classifier sees nor what stripping keeps. */
  lemma LeadingEscapeInvisible(e: seq<char>, s: seq<char>)
    requires IsEscape(e)
    ensures Visible(e + s) == Visible(s)
    ensures StripAnsi(e + s) == StripAnsi(s)
  {
    ThroughMOfRun(e, s);
    assert (e + s)[0] == ESC && (e + s)[|e|..] == s;
  }

  /** The run at the head of `e + s` ends where it ends in `e`. */
  lemma {:induction false} ThroughMOfRun(e: seq<char>, s: seq<char>)
    requires 1 <= |e| && e[|e| - 1] == 'm' && ThroughM(e) == |e|
    ensures ThroughM(e + s) == |e|
    decreases |e|
  {
    assert (e + s)[0] == e[0];
    if e[0] != 'm' {
      assert (e + s)[1..] == e[1..] + s;
      ThroughMOfRun(e[1..], s);
    }
  }
}
