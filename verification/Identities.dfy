/** Who a member is. */
module Identities {
  import opened Words

  /** An endpoint identity, as the bytes of its printed form. */
  type Identity = Bytes
}
