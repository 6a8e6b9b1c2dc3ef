/** Keeping facts out of proofs that only carry them along. */
module Guard {

  /** Always true. A fact stated under `forall t :: Mention(t) ==> ...` is unfolded only
      where a Mention is asserted. */
  ghost predicate Mention(t: int) { true }
}
