/** The nullable pointers of the C++ source (a block pointer, a "printed" escape
    code that may be unknown) are modelled as an Option; the sequence facts
    the proofs share. */
module Wrappers {
  datatype Option<+T> = None | Some(value: T)

  /** The pieces of `ss` joined in order. */
  function Concat<T>(ss: seq<seq<T>>): seq<T>
  {
    if ss == [] then [] else ss[0] + Concat(ss[1..])
  }

  /** Concatenation regrouped, for proofs that build a sequence piece by piece. */
  lemma AppendAssoc<T>(a: seq<T>, b: seq<T>, c: seq<T>)
    ensures a + (b + c) == (a + b) + c
  {
  }

  lemma AppendAssoc4<T>(a: seq<T>, b: seq<T>, c: seq<T>, d: seq<T>)
    ensures ((a + b) + c) + d == a + (b + (c + d))
  {
    AppendAssoc(b, c, d);
    AppendAssoc(a, b + c, d);
    AppendAssoc(a, b, c);
  }

  lemma AppendAssoc5<T>(o: seq<T>, a: seq<T>, b: seq<T>, c: seq<T>, d: seq<T>)
    ensures (((o + a) + b) + c) + d == o + (((a + b) + c) + d)
  {
    AppendAssoc(o, a, b);
    AppendAssoc(o, a + b, c);
    AppendAssoc(o, (a + b) + c, d);
  }

  lemma AppendAssoc6<T>(o: seq<T>, a: seq<T>, b: seq<T>, c: seq<T>, d: seq<T>, e: seq<T>)
    ensures ((((o + a) + b) + c) + d) + e == o + ((((a + b) + c) + d) + e)
  {
    AppendAssoc5(o, a, b, c, d);
    AppendAssoc(o, (((a + b) + c) + d), e);
  }
}
