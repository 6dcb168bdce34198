/** Small facts about sequence concatenation and slicing that the proofs
    about byte strings and text lean on. */
module Seqs {

  lemma ConcatAssoc<T>(a: seq<T>, b: seq<T>, c: seq<T>)
    ensures a + b + c == a + (b + c)
  {
  }

  /** Cutting `b` at `k` and gluing the halves back onto `out` gives `out + b`. */
  lemma AppendSplit<T>(out: seq<T>, b: seq<T>, k: nat)
    requires k <= |b|
    ensures out + b[..k] + b[k..] == out + b
  {
    assert b == b[..k] + b[k..];
  }

  lemma DropPrefix<T>(a: seq<T>, b: seq<T>)
    ensures (a + b)[|a|..] == b
  {
  }

  lemma TakeThree<T>(b: seq<T>)
    requires |b| >= 3
    ensures b[..3] == [b[0], b[1], b[2]]
  {
  }

  /** `a + x + b + y + c` regrouped as `a + x + (b + y + c)`. */
  lemma Regroup<T>(a: seq<T>, x: seq<T>, b: seq<T>, y: seq<T>, c: seq<T>)
    ensures a + x + b + y + c == a + x + (b + y + c)
  {
    ConcatAssoc(a + x + b, y, c);
    ConcatAssoc(a + x, b, y + c);
    ConcatAssoc(b, y, c);
  }
}
