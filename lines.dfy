/** The input side of the line reader in src/diffparser.cpp: what one call of
    readLine (142-163) takes from the stream, which lines a whole input yields,
    and the growth rule of resizeBuffer (11-13, 127-140). */
module Lines {
  import opened Wrappers

  /** The byte `buf_[bufLen_] = ch` leaves when fgetc returns EOF (-1). */
  const EofByte: char := 255 as char

  /** BUFFER_SIZE_INIT and BUFFER_MAX_SIZE_INC. */
  const InitialSize: nat := 8192
  const MaxIncrement: nat := 8192 * 1024

  /** Size after one resizeBuffer: the buffer grows by its own size, but by
      no more than MaxIncrement. */
  function Grown(size: nat): (r: nat)
    ensures size < r || size == 0
    ensures r <= 2 * size && r - size <= MaxIncrement
    ensures r == 2 * size || r == size + MaxIncrement
  {
    size + (if size > MaxIncrement then MaxIncrement else size)
  }

  /** Index of the first newline at or after `pos`, or |s| when none. */
  function NewlineFrom(s: seq<char>, pos: nat): (k: nat)
    requires pos <= |s|
    ensures pos <= k <= |s|
    ensures k < |s| ==> s[k] == '\n'
    ensures forall i :: pos <= i < k ==> s[i] != '\n'
    decreases |s| - pos
  {
    if pos == |s| || s[pos] == '\n' then pos else NewlineFrom(s, pos + 1)
  }

  /** What one readLine appends to the buffer, and where it leaves the stream. */
  datatype Chunk = Chunk(text: seq<char>, next: nat, atEof: bool)

  /** readLine entered with the stream not yet at end of file: the bytes
      through the first newline; or, when the input ends first, the rest of
      the input followed by the byte EOF leaves, the stream then being at end
      of file. */
  function ReadChunk(input: seq<char>, pos: nat): (c: Chunk)
    requires pos <= |input|
    ensures pos <= c.next <= |input|
    ensures !c.atEof ==> c.text == input[pos..c.next] && IsLine(c.text)
    ensures c.atEof <==> '\n' !in input[pos..]
    ensures c.atEof ==> c.next == |input| && c.text == input[pos..] + [EofByte]
  {
    var k := NewlineFrom(input, pos);
    if k == |input| then
      assert forall i :: 0 <= i < |input[pos..]| ==> input[pos..][i] == input[pos + i];
      Chunk(input[pos..] + [EofByte], |input|, true)
    else
      assert input[pos..][k - pos] == '\n';
      Chunk(input[pos..k + 1], k + 1, false)
  }

  /** What a readLine that started at `from` has put into the buffer by the
      time the stream is at `to`: the bytes read, then the EOF byte once
      fgetc has hit the end of the input. */
  function Taken(input: seq<char>, from: nat, to: nat, atEof: bool): seq<char>
    requires from <= to <= |input|
  {
    input[from..to] + (if atEof then [EofByte] else [])
  }

  /** The byte fgetc returns with the stream at `pos`, and where it leaves
      the stream: the next byte, or the EOF byte at the end of the input. */
  function Getc(input: seq<char>, pos: nat): (r: (char, nat))
    requires pos <= |input|
    ensures pos < |input| ==> r.0 == input[pos] && r.1 == pos + 1
    ensures pos == |input| ==> r.0 == EofByte && r.1 == pos
  {
    if pos < |input| then (input[pos], pos + 1) else (EofByte, pos)
  }

  /** One more turn of the readLine loop: the byte fgetc returns joins what
      was taken, and a byte that is not a newline keeps the stream before
      the first newline. */
  lemma TakenNext(kept: seq<char>, input: seq<char>, from: nat, to: nat)
    requires from <= to <= |input| && to <= NewlineFrom(input, from)
    ensures var (ch, next) := Getc(input, to);
      kept + Taken(input, from, next, to == |input|) == (kept + Taken(input, from, to, false)) + [ch]
      && (ch != '\n' && to < |input| ==> next <= NewlineFrom(input, from))
  {
    var (ch, next) := Getc(input, to);
    if to < |input| {
      assert input[from..to + 1] == input[from..to] + [ch];
    }
    assert Taken(input, from, next, to == |input|) == Taken(input, from, to, false) + [ch];
  }

  /** A readLine loop that stopped right after a newline, or at the end of
      the input with no newline read, has taken exactly ReadChunk. */
  lemma ChunkTaken(input: seq<char>, from: nat, to: nat, atEof: bool)
    requires from <= to <= |input| && to <= NewlineFrom(input, from) + 1
    requires atEof ==> to == |input| && to <= NewlineFrom(input, from)
    requires !atEof ==> from < to && input[to - 1] == '\n'
    ensures var c := ReadChunk(input, from);
      c.next == to && c.atEof == atEof && c.text == Taken(input, from, to, atEof)
  {
    var k := NewlineFrom(input, from);
    if !atEof {
      assert k == to - 1;
    }
  }

  /** A line the parser dispatches: it ends in its only newline. */
  predicate IsLine(l: seq<char>)
  {
    |l| >= 1 && l[|l| - 1] == '\n' && '\n' !in l[..|l| - 1]
  }

  /** The newline-terminated lines of `s`, in order; an unterminated tail is
      not a line. */
  function CompleteLines(s: seq<char>): seq<seq<char>>
    decreases |s|
  {
    var k := NewlineFrom(s, 0);
    if k == |s| then [] else [s[..k + 1]] + CompleteLines(s[k + 1..])
  }

  /** What of `s` follows its complete lines: the unterminated last line,
      empty when `s` ends in a newline. */
  function LastPart(s: seq<char>): seq<char>
    decreases |s|
  {
    var k := NewlineFrom(s, 0);
    if k == |s| then s else LastPart(s[k + 1..])
  }

  /** `ls` are lines that, concatenated, start `s`, and what of `s` follows
      them holds no newline. */
  predicate SplitsInto(s: seq<char>, ls: seq<seq<char>>)
  {
    (forall k :: 0 <= k < |ls| ==> IsLine(ls[k])) && Concat(ls) <= s && '\n' !in s[|Concat(ls)|..]
  }

  /** The lines determine `s` up to a tail without newline: `s` is the
      lines, each ending in its only newline, followed by such a tail. */
  lemma {:induction false} CompleteLinesSpec(s: seq<char>)
    ensures SplitsInto(s, CompleteLines(s))
    decreases |s|
  {
    var k := NewlineFrom(s, 0);
    if k == |s| {
      assert s[0..] == s;
    } else {
      var rest := s[k + 1..];
      CompleteLinesSpec(rest);
      LinesUnfold(s, k);
      SplitsStep(s, k, CompleteLines(rest));
    }
  }

  lemma SplitsStep(s: seq<char>, k: nat, ls: seq<seq<char>>)
    requires k == NewlineFrom(s, 0) < |s|
    requires SplitsInto(s[k + 1..], ls)
    ensures SplitsInto(s, [s[..k + 1]] + ls)
  {
    var head, rest := s[..k + 1], s[k + 1..];
    FirstLine(s, k);
    LinesCons(head, ls);
    ConcatCons(head, ls);
    SplitAt(s, k + 1);
    PrefixTail(head, Concat(ls), rest);
  }

  lemma FirstLine(s: seq<char>, k: nat)
    requires k == NewlineFrom(s, 0) < |s|
    ensures IsLine(s[..k + 1])
  {
    assert s[..k + 1][k] == '\n' && s[..k + 1][..k] == s[..k];
  }

  lemma LinesCons(head: seq<char>, ls: seq<seq<char>>)
    requires IsLine(head) && forall k :: 0 <= k < |ls| ==> IsLine(ls[k])
    ensures forall k :: 0 <= k < |[head] + ls| ==> IsLine(([head] + ls)[k])
  {
    forall i | 0 <= i < |[head] + ls|
      ensures IsLine(([head] + ls)[i])
    {
      if i > 0 {
        assert ([head] + ls)[i] == ls[i - 1];
      }
    }
  }

  lemma ConcatCons(head: seq<char>, ls: seq<seq<char>>)
    ensures Concat([head] + ls) == head + Concat(ls)
  {
    assert ([head] + ls)[1..] == ls;
  }

  lemma SplitAt(s: seq<char>, i: nat)
    requires i <= |s|
    ensures s == s[..i] + s[i..]
  {
  }

  /** A common head keeps a prefix a prefix and leaves the same tail. */
  lemma PrefixTail(h: seq<char>, c: seq<char>, r: seq<char>)
    requires c <= r
    ensures h + c <= h + r && (h + r)[|h + c|..] == r[|c|..]
  {
    assert (h + r)[..|h + c|] == h + r[..|c|];
  }

  /** One readLine that does not hit the end of the input dispatches the
      next complete line; one that does hit it finds no complete line left. */
  lemma ChunkStep(input: seq<char>, pos: nat, c: Chunk)
    requires pos <= |input| && c == ReadChunk(input, pos)
    ensures c.atEof ==> CompleteLines(input[pos..]) == [] && c.text == LastPart(input[pos..]) + [EofByte]
    ensures !c.atEof ==> CompleteLines(input[pos..]) == [c.text] + CompleteLines(input[c.next..])
    ensures !c.atEof ==> LastPart(input[pos..]) == LastPart(input[c.next..])
  {
    var j := NewlineFrom(input, pos);
    if j < |input| {
      ChunkOfLine(input, pos, j, c);
    } else {
      ChunkAtEof(input, pos, j, c);
    }
  }

  lemma ChunkOfLine(input: seq<char>, pos: nat, j: nat, c: Chunk)
    requires pos <= |input| && j == NewlineFrom(input, pos) < |input| && c == ReadChunk(input, pos)
    ensures !c.atEof && CompleteLines(input[pos..]) == [c.text] + CompleteLines(input[c.next..])
    ensures LastPart(input[pos..]) == LastPart(input[c.next..])
  {
    assert c == Chunk(input[pos..j + 1], j + 1, false);
    LinesFrom(input, pos);
  }

  lemma ChunkAtEof(input: seq<char>, pos: nat, j: nat, c: Chunk)
    requires pos <= |input| && j == NewlineFrom(input, pos) == |input| && c == ReadChunk(input, pos)
    ensures c.atEof && CompleteLines(input[pos..]) == [] && LastPart(input[pos..]) == input[pos..]
  {
    NewlineShift(input, pos, 0);
    assert input[pos + 0..] == input[pos..];
  }

  lemma LinesFrom(input: seq<char>, pos: nat)
    requires pos <= |input| && NewlineFrom(input, pos) < |input|
    ensures var j := NewlineFrom(input, pos);
      CompleteLines(input[pos..]) == [input[pos..j + 1]] + CompleteLines(input[j + 1..])
      && LastPart(input[pos..]) == LastPart(input[j + 1..])
  {
    var s := input[pos..];
    var j := NewlineFrom(input, pos);
    NewlineShift(input, pos, 0);
    assert input[pos + 0..] == s;
    var k := j - pos;
    LinesUnfold(s, k);
    assert s[..k + 1] == input[pos..j + 1];
    assert s[k + 1..] == input[j + 1..];
  }

  lemma LinesUnfold(s: seq<char>, k: nat)
    requires k == NewlineFrom(s, 0) < |s|
    ensures CompleteLines(s) == [s[..k + 1]] + CompleteLines(s[k + 1..])
    ensures LastPart(s) == LastPart(s[k + 1..])
  {
    var rest := s[k + 1..];
    assert CompleteLines(s) == [s[..k + 1]] + CompleteLines(rest);
    assert LastPart(s) == LastPart(rest);
  }

  lemma {:induction false} NewlineShift(input: seq<char>, pos: nat, i: nat)
    requires pos + i <= |input|
    ensures NewlineFrom(input[pos..], i) + pos == NewlineFrom(input, pos + i)
    decreases |input| - pos - i
  {
    if pos + i < |input| && input[pos + i] != '\n' {
      NewlineShift(input, pos, i + 1);
    }
  }
}
