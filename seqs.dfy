/**
  A fact about sequences the solver does not find by itself in larger
  proofs.
*/
module Seqs {

  /** Concatenation is associative. */
  lemma Associate<T>(a: seq<T>, b: seq<T>, c: seq<T>)
    ensures (a + b) + c == a + (b + c)
  {
  }
}
