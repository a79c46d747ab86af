/** The intraline comparison of src/diffparser.cpp: the brute-force longest
    common run longestMatch (184-246) and the recursive splitter
    compareBlocks (248-262); src/neonapp.cpp:236-314 holds an identical copy.
    Pointers are offsets into the buffer `buf`. */
module Engine {
  import opened Wrappers

  /** A Block: the matched run starts at aBuf in the removed text and at bBuf
      in the added text, ends (after the blanks that follow it) at aEnd and
      bEnd, and has `len` compared bytes. */
  datatype Match = Match(aBuf: nat, aEnd: nat, bBuf: nat, bEnd: nat, len: nat)

  /** A freshly constructed Block: null pointers, length 0. */
  const NoMatch: Match := Match(0, 0, 0, 0, 0)

  /** The skip test of the scan at offset k: a space, a tab, a newline, or the
      byte right after a newline (the '-' or '+' marker of the next line).
      It reads the byte before k, so k is never 0. */
  predicate Blank(buf: seq<char>, k: nat)
    requires 1 <= k < |buf|
  {
    buf[k] == ' ' || buf[k] == '\t' || buf[k] == '\n' || buf[k - 1] == '\n'
  }

  /** The offset a skip loop stops at: the first byte of [i, end) that is not
      blank, or `end`. (Offsets outside 1 <= i < end <= |buf| stop at once.) */
  function SkipBlank(buf: seq<char>, i: nat, end: nat): (r: nat)
    ensures i <= r && (i <= end ==> r <= end)
    ensures 1 <= i && r < end <= |buf| ==> !Blank(buf, r)
    decreases end - i
  {
    if 1 <= i < end <= |buf| && Blank(buf, i) then SkipBlank(buf, i + 1, end) else i
  }

  /** The skip loop stops at the FIRST byte that is not blank: every byte it
      passes over is blank. */
  lemma {:induction false} SkipBlankPassesBlanks(buf: seq<char>, i: nat, end: nat)
    requires 1 <= i
    ensures forall k :: i <= k < SkipBlank(buf, i, end) ==> k < |buf| && Blank(buf, k)
    decreases end - i
  {
    if i < end <= |buf| && Blank(buf, i) {
      SkipBlankPassesBlanks(buf, i + 1, end);
    } else {
      assert SkipBlank(buf, i, end) == i;
    }
  }

  /** The bytes of [lo, hi) the scan compares: those that are not blank.
      (Empty outside 1 <= lo < hi <= |buf|.) */
  function Clean(buf: seq<char>, lo: nat, hi: nat): seq<char>
    decreases hi - lo
  {
    if !(1 <= lo < hi <= |buf|) then []
    else if Blank(buf, lo) then Clean(buf, lo + 1, hi)
    else [buf[lo]] + Clean(buf, lo + 1, hi)
  }

  /** Skipped bytes contribute nothing to the compared text. */
  lemma {:induction false} CleanSkipped(buf: seq<char>, i: nat, end: nat, hi: nat)
    requires 1 <= i <= end <= |buf| && hi <= end
    ensures SkipBlank(buf, i, end) <= hi ==> Clean(buf, i, hi) == Clean(buf, SkipBlank(buf, i, end), hi)
    decreases end - i
  {
    if i < end && Blank(buf, i) {
      CleanSkipped(buf, i + 1, end, hi);
    }
  }

  /** Length of the longest common prefix of two texts. */
  function CommonPrefix(x: seq<char>, y: seq<char>): (n: nat)
    ensures n <= |x| && n <= |y|
  {
    if x == [] || y == [] || x[0] != y[0] then 0 else 1 + CommonPrefix(x[1..], y[1..])
  }

  /** CommonPrefix is what its name says: the texts agree up to it and
      differ right after it. */
  lemma {:induction false} CommonPrefixSpec(x: seq<char>, y: seq<char>)
    ensures var n := CommonPrefix(x, y);
      x[..n] == y[..n] && (n < |x| && n < |y| ==> x[n] != y[n])
  {
    if x != [] && y != [] && x[0] == y[0] {
      CommonPrefixSpec(x[1..], y[1..]);
      var n := CommonPrefix(x, y);
      assert x[..n] == [x[0]] + x[1..][..n - 1];
      assert y[..n] == [y[0]] + y[1..][..n - 1];
    }
  }

  /** What the for(;;) of longestMatch leaves from offsets i and j: the count
      of equal compared bytes and the offsets after the blanks that follow
      the last of them (i and j themselves when nothing matches). */
  datatype Run = Run(len: nat, aEnd: nat, bEnd: nat)

  function RunFrom(buf: seq<char>, i: nat, remEnd: nat, j: nat, addEnd: nat): (r: Run)
    requires 1 <= i <= remEnd <= |buf| && 1 <= j <= addEnd <= |buf|
    ensures i + r.len <= r.aEnd <= remEnd && j + r.len <= r.bEnd <= addEnd
    ensures r.len == 0 ==> r.aEnd == i && r.bEnd == j
    decreases remEnd - i
  {
    var i1 := SkipBlank(buf, i, remEnd);
    var j1 := SkipBlank(buf, j, addEnd);
    if i1 == remEnd || j1 == addEnd || buf[i1] != buf[j1] then Run(0, i, j)
    else
      var rest := RunFrom(buf, SkipBlank(buf, i1 + 1, remEnd), remEnd, SkipBlank(buf, j1 + 1, addEnd), addEnd);
      Run(rest.len + 1, rest.aEnd, rest.bEnd)
  }

  /** The compared text from i up to any hi past the first compared byte
      i1 starts with that byte and goes on from i2, where the skip after i1
      stops. */
  lemma CleanStep(buf: seq<char>, i: nat, end: nat, hi: nat, i1: nat, i2: nat)
    requires 1 <= i <= end <= |buf|
    requires i1 == SkipBlank(buf, i, end) && i1 < end
    requires i2 == SkipBlank(buf, i1 + 1, end) && i2 <= hi <= end
    ensures Clean(buf, i, hi) == [buf[i1]] + Clean(buf, i2, hi)
  {
    CleanSkipped(buf, i, end, hi);
    CleanSkipped(buf, i1 + 1, end, hi);
    assert Clean(buf, i1, hi) == [buf[i1]] + Clean(buf, i1 + 1, hi);
  }

  /** The weight of the run from i and j is the length of the longest
      common prefix of the compared text that follows them. */
  lemma RunIsCommonPrefix(buf: seq<char>, i: nat, remEnd: nat, j: nat, addEnd: nat)
    requires 1 <= i <= remEnd <= |buf| && 1 <= j <= addEnd <= |buf|
    ensures RunFrom(buf, i, remEnd, j, addEnd).len == CommonPrefix(Clean(buf, i, remEnd), Clean(buf, j, addEnd))
  {
    PrefixOf(buf, i, remEnd, j, addEnd, RunFrom(buf, i, remEnd, j, addEnd), Clean(buf, i, remEnd), Clean(buf, j, addEnd));
  }

  lemma {:induction false} PrefixOf(buf: seq<char>, i: nat, remEnd: nat, j: nat, addEnd: nat, r: Run, x: seq<char>, y: seq<char>)
    requires 1 <= i <= remEnd <= |buf| && 1 <= j <= addEnd <= |buf|
    requires r == RunFrom(buf, i, remEnd, j, addEnd) && x == Clean(buf, i, remEnd) && y == Clean(buf, j, addEnd)
    ensures r.len == CommonPrefix(x, y)
    decreases remEnd - i
  {
    var i1 := SkipBlank(buf, i, remEnd);
    var j1 := SkipBlank(buf, j, addEnd);
    if i1 < remEnd && j1 < addEnd && buf[i1] == buf[j1] {
      var i2, j2 := SkipBlank(buf, i1 + 1, remEnd), SkipBlank(buf, j1 + 1, addEnd);
      var r2, x2, y2 := RunFrom(buf, i2, remEnd, j2, addEnd), Clean(buf, i2, remEnd), Clean(buf, j2, addEnd);
      PrefixOf(buf, i2, remEnd, j2, addEnd, r2, x2, y2);
      PrefixMatched(buf, i, remEnd, j, addEnd, i1, j1, i2, j2, r, x, y, r2, x2, y2);
    } else {
      PrefixUnmatched(buf, i, remEnd, j, addEnd, i1, j1, r, x, y);
    }
  }

  lemma PrefixMatched(buf: seq<char>, i: nat, remEnd: nat, j: nat, addEnd: nat, i1: nat, j1: nat, i2: nat, j2: nat,
                      r: Run, x: seq<char>, y: seq<char>, r2: Run, x2: seq<char>, y2: seq<char>)
    requires 1 <= i <= remEnd <= |buf| && 1 <= j <= addEnd <= |buf|
    requires i1 == SkipBlank(buf, i, remEnd) && j1 == SkipBlank(buf, j, addEnd)
    requires i1 < remEnd && j1 < addEnd && buf[i1] == buf[j1]
    requires i2 == SkipBlank(buf, i1 + 1, remEnd) && j2 == SkipBlank(buf, j1 + 1, addEnd)
    requires r == RunFrom(buf, i, remEnd, j, addEnd) && x == Clean(buf, i, remEnd) && y == Clean(buf, j, addEnd)
    requires r2 == RunFrom(buf, i2, remEnd, j2, addEnd) && x2 == Clean(buf, i2, remEnd) && y2 == Clean(buf, j2, addEnd)
    requires r2.len == CommonPrefix(x2, y2)
    ensures r.len == CommonPrefix(x, y)
  {
    RunGoesOn(buf, i, remEnd, j, addEnd, i1, j1, i2, j2);
    CleanStep(buf, i, remEnd, remEnd, i1, i2);
    CleanStep(buf, j, addEnd, addEnd, j1, j2);
    ConsPrefix(buf[i1], x2, buf[j1], y2);
  }

  lemma PrefixUnmatched(buf: seq<char>, i: nat, remEnd: nat, j: nat, addEnd: nat, i1: nat, j1: nat,
                        r: Run, x: seq<char>, y: seq<char>)
    requires 1 <= i <= remEnd <= |buf| && 1 <= j <= addEnd <= |buf|
    requires i1 == SkipBlank(buf, i, remEnd) && j1 == SkipBlank(buf, j, addEnd)
    requires i1 >= remEnd || j1 >= addEnd || buf[i1] != buf[j1]
    requires r == RunFrom(buf, i, remEnd, j, addEnd) && x == Clean(buf, i, remEnd) && y == Clean(buf, j, addEnd)
    ensures r.len == CommonPrefix(x, y)
  {
    RunStops(buf, i, remEnd, j, addEnd, i1, j1);
    if i1 < remEnd && j1 < addEnd {
      var i2, j2 := SkipBlank(buf, i1 + 1, remEnd), SkipBlank(buf, j1 + 1, addEnd);
      CleanStep(buf, i, remEnd, remEnd, i1, i2);
      CleanStep(buf, j, addEnd, addEnd, j1, j2);
      ConsPrefix(buf[i1], Clean(buf, i2, remEnd), buf[j1], Clean(buf, j2, addEnd));
    } else {
      CleanAtEnd(buf, i, remEnd);
      CleanAtEnd(buf, j, addEnd);
    }
  }

  lemma ConsPrefix(a: char, x: seq<char>, b: char, y: seq<char>)
    ensures CommonPrefix([a] + x, [b] + y) == if a == b then 1 + CommonPrefix(x, y) else 0
  {
    assert ([a] + x)[1..] == x && ([b] + y)[1..] == y;
  }

  lemma CleanAtEnd(buf: seq<char>, i: nat, end: nat)
    requires 1 <= i <= end <= |buf|
    ensures SkipBlank(buf, i, end) == end ==> Clean(buf, i, end) == []
  {
    CleanSkipped(buf, i, end, end);
  }

  /** The two spans of the run hold the same compared text, as long as the
      run. */
  lemma RunSpansAgree(buf: seq<char>, i: nat, remEnd: nat, j: nat, addEnd: nat)
    requires 1 <= i <= remEnd <= |buf| && 1 <= j <= addEnd <= |buf|
    ensures var r := RunFrom(buf, i, remEnd, j, addEnd);
      Clean(buf, i, r.aEnd) == Clean(buf, j, r.bEnd) && |Clean(buf, i, r.aEnd)| == r.len
  {
    var r := RunFrom(buf, i, remEnd, j, addEnd);
    SpansOf(buf, i, remEnd, j, addEnd, r, Clean(buf, i, r.aEnd), Clean(buf, j, r.bEnd));
  }

  lemma {:induction false} SpansOf(buf: seq<char>, i: nat, remEnd: nat, j: nat, addEnd: nat, r: Run, x: seq<char>, y: seq<char>)
    requires 1 <= i <= remEnd <= |buf| && 1 <= j <= addEnd <= |buf|
    requires r == RunFrom(buf, i, remEnd, j, addEnd) && x == Clean(buf, i, r.aEnd) && y == Clean(buf, j, r.bEnd)
    ensures x == y && |x| == r.len
    decreases remEnd - i
  {
    var i1 := SkipBlank(buf, i, remEnd);
    var j1 := SkipBlank(buf, j, addEnd);
    if i1 < remEnd && j1 < addEnd && buf[i1] == buf[j1] {
      var i2, j2 := SkipBlank(buf, i1 + 1, remEnd), SkipBlank(buf, j1 + 1, addEnd);
      var r2 := RunFrom(buf, i2, remEnd, j2, addEnd);
      var x2, y2 := Clean(buf, i2, r2.aEnd), Clean(buf, j2, r2.bEnd);
      SpansOf(buf, i2, remEnd, j2, addEnd, r2, x2, y2);
      SpansMatched(buf, i, remEnd, j, addEnd, i1, j1, i2, j2, r, x, y, r2, x2, y2);
    } else {
      RunStops(buf, i, remEnd, j, addEnd, i1, j1);
    }
  }

  lemma SpansMatched(buf: seq<char>, i: nat, remEnd: nat, j: nat, addEnd: nat, i1: nat, j1: nat, i2: nat, j2: nat,
                     r: Run, x: seq<char>, y: seq<char>, r2: Run, x2: seq<char>, y2: seq<char>)
    requires 1 <= i <= remEnd <= |buf| && 1 <= j <= addEnd <= |buf|
    requires i1 == SkipBlank(buf, i, remEnd) && j1 == SkipBlank(buf, j, addEnd)
    requires i1 < remEnd && j1 < addEnd && buf[i1] == buf[j1]
    requires i2 == SkipBlank(buf, i1 + 1, remEnd) && j2 == SkipBlank(buf, j1 + 1, addEnd)
    requires r == RunFrom(buf, i, remEnd, j, addEnd) && x == Clean(buf, i, r.aEnd) && y == Clean(buf, j, r.bEnd)
    requires r2 == RunFrom(buf, i2, remEnd, j2, addEnd) && x2 == Clean(buf, i2, r2.aEnd) && y2 == Clean(buf, j2, r2.bEnd)
    requires x2 == y2 && |x2| == r2.len
    ensures x == y && |x| == r.len
  {
    RunGoesOn(buf, i, remEnd, j, addEnd, i1, j1, i2, j2);
    CleanStep(buf, i, remEnd, r2.aEnd, i1, i2);
    CleanStep(buf, j, addEnd, r2.bEnd, j1, j2);
  }

  /** The Block the inner loop builds for the start pair (a, b). */
  function MatchAt(buf: seq<char>, a: nat, remEnd: nat, b: nat, addEnd: nat): (m: Match)
    requires 1 <= a <= remEnd <= |buf| && 1 <= b <= addEnd <= |buf|
    ensures m.aBuf == a && m.bBuf == b
    ensures a <= m.aEnd <= remEnd && b <= m.bEnd <= addEnd
    ensures a + m.len <= m.aEnd && b + m.len <= m.bEnd
  {
    var r := RunFrom(buf, a, remEnd, b, addEnd);
    Match(a, r.aEnd, b, r.bEnd, r.len)
  }

  /** The weight longestMatch maximises. */
  function Weight(buf: seq<char>, a: nat, remEnd: nat, b: nat, addEnd: nat): nat
    requires 1 <= a <= remEnd <= |buf| && 1 <= b <= addEnd <= |buf|
  {
    MatchAt(buf, a, remEnd, b, addEnd).len
  }

  /** The scan of every start pair as one function value, so that the search
      below can be stated for any scan. */
  function Scorer(buf: seq<char>, remEnd: nat, addEnd: nat): (nat, nat) -> Run
  {
    (p: nat, q: nat) =>
      if 1 <= p <= remEnd <= |buf| && 1 <= q <= addEnd <= |buf| then RunFrom(buf, p, remEnd, q, addEnd)
      else Run(0, p, q)
  }

  /** The Block a scan builds for the start pair (p, q). */
  function At(score: (nat, nat) -> Run, p: nat, q: nat): Match
  {
    Match(p, score(p, q).aEnd, q, score(p, q).bEnd, score(p, q).len)
  }

  lemma ScorerAt(buf: seq<char>, remEnd: nat, addEnd: nat, p: nat, q: nat)
    requires 1 <= p <= remEnd <= |buf| && 1 <= q <= addEnd <= |buf|
    ensures At(Scorer(buf, remEnd, addEnd), p, q) == MatchAt(buf, p, remEnd, q, addEnd)
    ensures Scorer(buf, remEnd, addEnd)(p, q).len == Weight(buf, p, remEnd, q, addEnd)
  {
  }

  /** No run is longer than what is left of either range. */
  ghost predicate Bounded(score: (nat, nat) -> Run, remEnd: nat, addEnd: nat)
  {
    forall p: nat, q: nat :: p <= remEnd && q <= addEnd ==> p + score(p, q).len <= remEnd && q + score(p, q).len <= addEnd
  }

  lemma ScorerBounded(buf: seq<char>, remEnd: nat, addEnd: nat)
    ensures Bounded(Scorer(buf, remEnd, addEnd), remEnd, addEnd)
  {
    forall p: nat, q: nat | p <= remEnd && q <= addEnd
      ensures p + Scorer(buf, remEnd, addEnd)(p, q).len <= remEnd && q + Scorer(buf, remEnd, addEnd)(p, q).len <= addEnd
    {
      if 1 <= p <= remEnd <= |buf| && 1 <= q <= addEnd <= |buf| {
        var r := RunFrom(buf, p, remEnd, q, addEnd);
      }
    }
  }

  /** A start pair of the two ranges. */
  predicate InRanges(a: nat, b: nat, remStart: nat, remEnd: nat, addStart: nat, addEnd: nat)
  {
    remStart <= a < remEnd && addStart <= b < addEnd
  }

  /** Start pair (a, b) is visited before (a', b'). */
  predicate Before(a: nat, b: nat, a': nat, b': nat)
  {
    a < a' || (a == a' && b < b')
  }

  /** Both loops of longestMatch without their pruning tests: every start
      pair from (a, b) on, in the loops' order, replacing `best` only by a
      strictly longer run. */
  function BestFrom(score: (nat, nat) -> Run, remStart: nat, remEnd: nat, addStart: nat, addEnd: nat,
                    a: nat, b: nat, best: Match): (m: Match)
    requires remStart <= a <= remEnd && addStart <= b <= addEnd
    ensures m == best || (InRanges(m.aBuf, m.bBuf, remStart, remEnd, addStart, addEnd)
                          && m == At(score, m.aBuf, m.bBuf) && m.len > best.len)
    decreases remEnd - a, addEnd - b
  {
    if a == remEnd then best
    else if b == addEnd then BestFrom(score, remStart, remEnd, addStart, addEnd, a + 1, addStart, best)
    else
      var cur := At(score, a, b);
      BestFrom(score, remStart, remEnd, addStart, addEnd, a, b + 1, if cur.len > best.len then cur else best)
  }

  /** longestMatch's result: the first longest run, None for the null
      pointer. */
  function Longest(buf: seq<char>, remStart: nat, remEnd: nat, addStart: nat, addEnd: nat): (res: Option<Match>)
    requires 1 <= remStart <= remEnd <= |buf| && 1 <= addStart <= addEnd <= |buf|
    ensures res.Some? ==> var m := res.value;
      InRanges(m.aBuf, m.bBuf, remStart, remEnd, addStart, addEnd) && 1 <= m.len
      && m.aBuf + m.len <= m.aEnd <= remEnd && m.bBuf + m.len <= m.bEnd <= addEnd
      && m == MatchAt(buf, m.aBuf, remEnd, m.bBuf, addEnd)
  {
    var best := BestFrom(Scorer(buf, remEnd, addEnd), remStart, remEnd, addStart, addEnd, remStart, addStart, NoMatch);
    if best.len == 0 then None
    else
      ScorerAt(buf, remEnd, addEnd, best.aBuf, best.bBuf);
      Some(best)
  }

  /** Everything visited before (a, b) is covered by `best`: no earlier pair
      is longer, and `best` is an earlier pair's run that every pair visited
      before it falls short of. */
  ghost predicate Covers(score: (nat, nat) -> Run, remStart: nat, remEnd: nat, addStart: nat, addEnd: nat,
                         a: nat, b: nat, best: Match)
  {
    (forall p, q :: InRanges(p, q, remStart, remEnd, addStart, addEnd) && Before(p, q, a, b) ==>
        score(p, q).len <= best.len)
    && (best.len > 0 ==>
        InRanges(best.aBuf, best.bBuf, remStart, remEnd, addStart, addEnd)
        && Before(best.aBuf, best.bBuf, a, b)
        && best == At(score, best.aBuf, best.bBuf)
        && forall p, q :: InRanges(p, q, remStart, remEnd, addStart, addEnd) && Before(p, q, best.aBuf, best.bBuf) ==>
             score(p, q).len < best.len)
  }

  lemma CoversStep(score: (nat, nat) -> Run, remStart: nat, remEnd: nat, addStart: nat, addEnd: nat,
                   a: nat, b: nat, best: Match)
    requires remStart <= a < remEnd && addStart <= b < addEnd
    requires Covers(score, remStart, remEnd, addStart, addEnd, a, b, best)
    ensures var cur := At(score, a, b);
      Covers(score, remStart, remEnd, addStart, addEnd, a, b + 1, if cur.len > best.len then cur else best)
  {
    var cur := At(score, a, b);
    forall p, q | InRanges(p, q, remStart, remEnd, addStart, addEnd) && Before(p, q, a, b + 1)
      ensures score(p, q).len <= (if cur.len > best.len then cur else best).len
    {
      if !Before(p, q, a, b) {
        assert p == a && q == b;
      }
    }
  }

  lemma CoversRow(score: (nat, nat) -> Run, remStart: nat, remEnd: nat, addStart: nat, addEnd: nat,
                  a: nat, best: Match)
    requires remStart <= a < remEnd && addStart <= addEnd
    requires Covers(score, remStart, remEnd, addStart, addEnd, a, addEnd, best)
    ensures Covers(score, remStart, remEnd, addStart, addEnd, a + 1, addStart, best)
  {
    forall p, q | InRanges(p, q, remStart, remEnd, addStart, addEnd) && Before(p, q, a + 1, addStart)
      ensures Before(p, q, a, addEnd)
    {
    }
  }

  /** The fold keeps the covering property to the end. */
  lemma {:induction false} BestFromCovers(score: (nat, nat) -> Run, remStart: nat, remEnd: nat, addStart: nat, addEnd: nat,
                                          a: nat, b: nat, best: Match, res: Match)
    requires remStart <= a <= remEnd && addStart <= b <= addEnd
    requires Covers(score, remStart, remEnd, addStart, addEnd, a, b, best)
    requires res == BestFrom(score, remStart, remEnd, addStart, addEnd, a, b, best)
    ensures Covers(score, remStart, remEnd, addStart, addEnd, remEnd, addStart, res)
    decreases remEnd - a, addEnd - b
  {
    if a == remEnd {
      CoversEnd(score, remStart, remEnd, addStart, addEnd, b, best);
    } else if b == addEnd {
      CoversRow(score, remStart, remEnd, addStart, addEnd, a, best);
      BestFromCovers(score, remStart, remEnd, addStart, addEnd, a + 1, addStart, best, res);
    } else {
      var cur := At(score, a, b);
      var next := if cur.len > best.len then cur else best;
      CoversStep(score, remStart, remEnd, addStart, addEnd, a, b, best);
      BestFromCovers(score, remStart, remEnd, addStart, addEnd, a, b + 1, next, res);
    }
  }

  lemma CoversEnd(score: (nat, nat) -> Run, remStart: nat, remEnd: nat, addStart: nat, addEnd: nat,
                  b: nat, best: Match)
    requires Covers(score, remStart, remEnd, addStart, addEnd, remEnd, b, best)
    ensures Covers(score, remStart, remEnd, addStart, addEnd, remEnd, addStart, best)
  {
    forall p, q | InRanges(p, q, remStart, remEnd, addStart, addEnd) && Before(p, q, remEnd, addStart)
      ensures Before(p, q, remEnd, b)
    {
    }
  }

  /** What longestMatch promises: null exactly when every start pair has
      weight 0; otherwise a run of maximal weight, and of all the runs of
      that weight the one with the earliest removed-side start, then the
      earliest added-side start. */
  lemma LongestIsFirstMaximal(buf: seq<char>, remStart: nat, remEnd: nat, addStart: nat, addEnd: nat)
    requires 1 <= remStart <= remEnd <= |buf| && 1 <= addStart <= addEnd <= |buf|
    ensures Longest(buf, remStart, remEnd, addStart, addEnd).None? <==>
      forall p, q :: InRanges(p, q, remStart, remEnd, addStart, addEnd) ==> Weight(buf, p, remEnd, q, addEnd) == 0
    ensures Longest(buf, remStart, remEnd, addStart, addEnd).Some? ==>
      var m := Longest(buf, remStart, remEnd, addStart, addEnd).value;
      (forall p, q :: InRanges(p, q, remStart, remEnd, addStart, addEnd) ==> Weight(buf, p, remEnd, q, addEnd) <= m.len)
      && (forall p, q :: InRanges(p, q, remStart, remEnd, addStart, addEnd) && Before(p, q, m.aBuf, m.bBuf) ==>
            Weight(buf, p, remEnd, q, addEnd) < m.len)
  {
    var score := Scorer(buf, remEnd, addEnd);
    var best := BestFrom(score, remStart, remEnd, addStart, addEnd, remStart, addStart, NoMatch);
    BestFromCovers(score, remStart, remEnd, addStart, addEnd, remStart, addStart, NoMatch, best);
    forall p, q | InRanges(p, q, remStart, remEnd, addStart, addEnd)
      ensures Before(p, q, remEnd, addStart) && Weight(buf, p, remEnd, q, addEnd) == score(p, q).len
    {
      ScorerAt(buf, remEnd, addEnd, p, q);
    }
    if best.len > 0 {
      ScorerAt(buf, remEnd, addEnd, best.aBuf, best.bBuf);
    }
  }

  /** The inner loop's pruning: a row is left early only when none of its
      remaining pairs can beat `best`. */
  lemma {:induction false} RowPruned(score: (nat, nat) -> Run, remStart: nat, remEnd: nat, addStart: nat, addEnd: nat,
                                     a: nat, b: nat, best: Match)
    requires remStart <= a < remEnd && addStart <= b <= addEnd
    requires Bounded(score, remEnd, addEnd)
    requires addEnd - b <= best.len || remEnd - a <= best.len
    ensures BestFrom(score, remStart, remEnd, addStart, addEnd, a, b, best)
         == BestFrom(score, remStart, remEnd, addStart, addEnd, a + 1, addStart, best)
    decreases addEnd - b
  {
    if b < addEnd {
      assert a + score(a, b).len <= remEnd && b + score(a, b).len <= addEnd;
      RowPruned(score, remStart, remEnd, addStart, addEnd, a, b + 1, best);
    }
  }

  /** The outer loop's pruning: the remaining rows cannot beat `best`. */
  lemma {:induction false} RestPruned(score: (nat, nat) -> Run, remStart: nat, remEnd: nat, addStart: nat, addEnd: nat,
                                      a: nat, best: Match)
    requires remStart <= a <= remEnd && addStart <= addEnd
    requires Bounded(score, remEnd, addEnd)
    requires remEnd - a <= best.len
    ensures BestFrom(score, remStart, remEnd, addStart, addEnd, a, addStart, best) == best
    decreases remEnd - a
  {
    if a < remEnd {
      RowPruned(score, remStart, remEnd, addStart, addEnd, a, addStart, best);
      RestPruned(score, remStart, remEnd, addStart, addEnd, a + 1, best);
    }
  }

  /** A skip loop of the scan. */
  method SkipBlanks(buf: seq<char>, i0: nat, end: nat) returns (i: nat)
    requires 1 <= i0 <= end <= |buf|
    ensures i == SkipBlank(buf, i0, end)
  {
    i := i0;
    while i < end && (buf[i] == ' ' || buf[i] == '\t' || buf[i] == '\n' || buf[i - 1] == '\n')
      invariant i0 <= i <= end
      invariant SkipBlank(buf, i, end) == SkipBlank(buf, i0, end)
      decreases end - i
    {
      i := i + 1;
    }
  }

  /** A turn of the scan that stops: nothing more matches from (i, j). */
  lemma RunStops(buf: seq<char>, i: nat, remEnd: nat, j: nat, addEnd: nat, i1: nat, j1: nat)
    requires 1 <= i <= remEnd <= |buf| && 1 <= j <= addEnd <= |buf|
    requires i1 == SkipBlank(buf, i, remEnd) && j1 == SkipBlank(buf, j, addEnd)
    requires i1 >= remEnd || j1 >= addEnd || buf[i1] != buf[j1]
    ensures RunFrom(buf, i, remEnd, j, addEnd) == Run(0, i, j)
  {
  }

  /** A turn of the scan that matches one byte and moves on to (i2, j2). */
  lemma RunGoesOn(buf: seq<char>, i: nat, remEnd: nat, j: nat, addEnd: nat, i1: nat, j1: nat, i2: nat, j2: nat)
    requires 1 <= i <= remEnd <= |buf| && 1 <= j <= addEnd <= |buf|
    requires i1 == SkipBlank(buf, i, remEnd) && j1 == SkipBlank(buf, j, addEnd)
    requires i1 < remEnd && j1 < addEnd && buf[i1] == buf[j1]
    requires i2 == SkipBlank(buf, i1 + 1, remEnd) && j2 == SkipBlank(buf, j1 + 1, addEnd)
    ensures var rest := RunFrom(buf, i2, remEnd, j2, addEnd);
      RunFrom(buf, i, remEnd, j, addEnd) == Run(rest.len + 1, rest.aEnd, rest.bEnd)
  {
  }

  /** One turn of the for(;;): skip blanks on both sides; stop on a
      mismatch or at a range end, otherwise count one byte and skip the
      blanks after it. */
  method ScanStep(buf: seq<char>, i: nat, remEnd: nat, j: nat, addEnd: nat)
    returns (matched: bool, i': nat, j': nat)
    requires 1 <= i <= remEnd <= |buf| && 1 <= j <= addEnd <= |buf|
    ensures !matched ==> RunFrom(buf, i, remEnd, j, addEnd) == Run(0, i, j)
    ensures matched ==> i < i' <= remEnd && j < j' <= addEnd
    ensures matched ==> var rest := RunFrom(buf, i', remEnd, j', addEnd);
      RunFrom(buf, i, remEnd, j, addEnd) == Run(rest.len + 1, rest.aEnd, rest.bEnd)
  {
    var i1 := SkipBlanks(buf, i, remEnd);
    var j1 := SkipBlanks(buf, j, addEnd);
    if i1 >= remEnd || j1 >= addEnd || buf[i1] != buf[j1] {
      RunStops(buf, i, remEnd, j, addEnd, i1, j1);
      return false, i, j;
    }
    i' := SkipBlanks(buf, i1 + 1, remEnd);
    j' := SkipBlanks(buf, j1 + 1, addEnd);
    RunGoesOn(buf, i, remEnd, j, addEnd, i1, j1, i', j');
    matched := true;
  }

  /** The for(;;) of longestMatch for the start pair (rem, add). */
  method ScanRun(buf: seq<char>, rem: nat, remEnd: nat, add: nat, addEnd: nat) returns (cur: Match)
    requires 1 <= rem <= remEnd <= |buf| && 1 <= add <= addEnd <= |buf|
    ensures cur == MatchAt(buf, rem, remEnd, add, addEnd)
  {
    cur := Match(rem, rem, add, add, 0);
    ghost var total := RunFrom(buf, rem, remEnd, add, addEnd);
    var matched := true;
    while matched
      invariant rem <= cur.aEnd <= remEnd && add <= cur.bEnd <= addEnd
      invariant cur.aBuf == rem && cur.bBuf == add
      invariant var rest := RunFrom(buf, cur.aEnd, remEnd, cur.bEnd, addEnd);
        total == Run(cur.len + rest.len, rest.aEnd, rest.bEnd)
      invariant !matched ==> RunFrom(buf, cur.aEnd, remEnd, cur.bEnd, addEnd) == Run(0, cur.aEnd, cur.bEnd)
      decreases remEnd - cur.aEnd, matched
    {
      var i, j;
      matched, i, j := ScanStep(buf, cur.aEnd, remEnd, cur.bEnd, addEnd);
      if matched {
        cur := cur.(len := cur.len + 1, aEnd := i, bEnd := j);
      }
    }
  }

  /** longestMatch: the nested loops with their pruning tests. */
  method LongestMatch(buf: seq<char>, remStart: nat, remEnd: nat, addStart: nat, addEnd: nat)
    returns (res: Option<Match>)
    requires 1 <= remStart <= remEnd <= |buf| && 1 <= addStart <= addEnd <= |buf|
    ensures res == Longest(buf, remStart, remEnd, addStart, addEnd)
  {
    ghost var score := Scorer(buf, remEnd, addEnd);
    ghost var total := BestFrom(score, remStart, remEnd, addStart, addEnd, remStart, addStart, NoMatch);
    ScorerBounded(buf, remEnd, addEnd);
    var best := NoMatch;
    var rem, add := remStart, addStart;
    var bSave := add;
    while remEnd - rem > best.len
      invariant remStart <= rem <= remEnd && add == addStart
      invariant BestFrom(score, remStart, remEnd, addStart, addEnd, rem, addStart, best) == total
      decreases remEnd - rem
    {
      while addEnd - add > best.len
        invariant addStart <= add <= addEnd
        invariant BestFrom(score, remStart, remEnd, addStart, addEnd, rem, add, best) == total
        decreases addEnd - add
      {
        var cur := ScanRun(buf, rem, remEnd, add, addEnd);
        ScorerAt(buf, remEnd, addEnd, rem, add);
        if cur.len > best.len {
          best := cur;
        }
        add := add + 1;
      }
      RowPruned(score, remStart, remEnd, addStart, addEnd, rem, add, best);
      rem := rem + 1;
      add := bSave;
    }
    RestPruned(score, remStart, remEnd, addStart, addEnd, rem, best);
    if best.len != 0 {
      res := Some(best);
    } else {
      res := None;
    }
  }

  /** A Block that really is a run: at least one compared byte, its ends
      after its starts by at least its length, and its two spans holding the
      same compared text of that length. */
  ghost predicate Sound(buf: seq<char>, m: Match)
  {
    1 <= m.len && 1 <= m.aBuf && m.aBuf + m.len <= m.aEnd <= |buf| && 1 <= m.bBuf && m.bBuf + m.len <= m.bEnd <= |buf|
    && Clean(buf, m.aBuf, m.aEnd) == Clean(buf, m.bBuf, m.bEnd) && |Clean(buf, m.aBuf, m.aEnd)| == m.len
  }

  /** The Blocks of `ms` lie, in order and without overlap, in [a, remEnd) on
      the removed side and [b, addEnd) on the added side: each starts at or
      after the end of the one before it and has at least one byte. */
  predicate Chained(ms: seq<Match>, a: nat, remEnd: nat, b: nat, addEnd: nat)
    decreases |ms|
  {
    if ms == [] then a <= remEnd && b <= addEnd
    else
      var m := ms[0];
      a <= m.aBuf && b <= m.bBuf && 1 <= m.len && m.aBuf + m.len <= m.aEnd && m.bBuf + m.len <= m.bEnd
      && Chained(ms[1..], m.aEnd, remEnd, m.bEnd, addEnd)
  }

  /** compareBlocks: the longest run, the Blocks before it on both sides,
      then the Blocks after it. */
  function CompareBlocks(buf: seq<char>, remStart: nat, remEnd: nat, addStart: nat, addEnd: nat): (ms: seq<Match>)
    requires 1 <= remStart <= remEnd <= |buf| && 1 <= addStart <= addEnd <= |buf|
    ensures ms == [] <==> Longest(buf, remStart, remEnd, addStart, addEnd).None?
    ensures Chained(ms, remStart, remEnd, addStart, addEnd)
    decreases (remEnd - remStart) + (addEnd - addStart)
  {
    match Longest(buf, remStart, remEnd, addStart, addEnd)
    case None => []
    case Some(m) =>
      var before := CompareBlocks(buf, remStart, m.aBuf, addStart, m.bBuf);
      var after := CompareBlocks(buf, m.aEnd, remEnd, m.bEnd, addEnd);
      ChainedJoin(before, m, after, remStart, remEnd, addStart, addEnd);
      before + [m] + after
  }

  lemma {:induction false} ChainedJoin(before: seq<Match>, m: Match, after: seq<Match>,
                                       a: nat, remEnd: nat, b: nat, addEnd: nat)
    requires Chained(before, a, m.aBuf, b, m.bBuf)
    requires 1 <= m.len && m.aBuf + m.len <= m.aEnd && m.bBuf + m.len <= m.bEnd
    requires Chained(after, m.aEnd, remEnd, m.bEnd, addEnd)
    ensures Chained(before + [m] + after, a, remEnd, b, addEnd)
    decreases |before|
  {
    if before == [] {
      assert before + [m] + after == [m] + after;
      assert ([m] + after)[1..] == after;
    } else {
      var h := before[0];
      ChainedJoin(before[1..], m, after, h.aEnd, remEnd, h.bEnd, addEnd);
      assert (before + [m] + after)[1..] == before[1..] + [m] + after;
    }
  }

  /** Every Block compareBlocks returns is a run of equal compared text. */
  lemma {:induction false} CompareBlocksSound(buf: seq<char>, remStart: nat, remEnd: nat, addStart: nat, addEnd: nat)
    requires 1 <= remStart <= remEnd <= |buf| && 1 <= addStart <= addEnd <= |buf|
    ensures forall m :: m in CompareBlocks(buf, remStart, remEnd, addStart, addEnd) ==> Sound(buf, m)
    decreases (remEnd - remStart) + (addEnd - addStart)
  {
    match Longest(buf, remStart, remEnd, addStart, addEnd)
    case None =>
    case Some(m) =>
      CompareBlocksSound(buf, remStart, m.aBuf, addStart, m.bBuf);
      CompareBlocksSound(buf, m.aEnd, remEnd, m.bEnd, addEnd);
      RunSpansAgree(buf, m.aBuf, remEnd, m.bBuf, addEnd);
  }
}
