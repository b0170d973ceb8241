/** What several components share. */
module Helpers {

  datatype Option<T> = None | Some(value: T)

  /** Whether a register value has the bit of a mask. */
  predicate Bit(v: nat, mask: nat)
    requires mask > 0
  {
    v / mask % 2 == 1
  }
}
