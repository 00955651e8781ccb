/** Facts about sequences that several modules use. */
module Sequences {

  /** Concatenation is associative. */
  lemma Assoc<T>(a: seq<T>, b: seq<T>, c: seq<T>)
    ensures (a + b) + c == a + (b + c)
  {
  }
}
