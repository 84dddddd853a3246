/** Facts about strings that more than one module's proofs lean on. */
module SeqFacts {

  /** Concatenation associates. */
  lemma AppendAssociates(x: string, y: string, z: string)
    ensures x + (y + z) == (x + y) + z
  {
  }
}
