/** General facts about sequences that the proofs of the other modules share. */
module Sequences {

  /** Extending a list twice appends both extensions at once. */
  lemma AppendAssociates<T>(a: seq<T>, b: seq<T>, c: seq<T>)
    ensures a + b + c == a + (b + c)
  {
  }
}
