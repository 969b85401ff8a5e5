/** Small facts about sequences shared by the rule models. */
module Seqs {
  /** Concatenation is associative; stated once so that proofs can cite it instead of
      re-deriving it element by element. */
  lemma ConcatAssoc<T>(a: seq<T>, b: seq<T>, c: seq<T>)
    ensures a + (b + c) == (a + b) + c
  {
  }
}
