/** Sequence facts that the verifier is slow to find on its own. */
module Sequences {
  lemma Associates<T>(a: seq<T>, b: seq<T>, c: seq<T>)
    ensures a + b + c == a + (b + c)
  {
  }
}
