/** The contract's constants: the whitelist capacity and the three values a
    key may hold in the nullifier map. */
module Constants {

  /** Largest number of addresses the whitelist accepts. */
  const MAX_NUM_ADDRESSES: nat := 100

  /** Nullifier value of an address that is not in the whitelist; also the
      value of a message slot that holds no message. */
  const UNINITIALIZED_VALUE: nat := 0

  /** Nullifier value of a whitelisted address that has not posted yet. */
  const WHITELISTED_VALUE: nat := 1

  /** Nullifier value of a whitelisted address whose message is stored. */
  const MESSAGE_SET_VALUE: nat := 2

  /** The reasons a transaction is rejected. The source reports them as
      assertion messages; here each is one constructor. */
  datatype Error =
    | AddressLimitReached   // `assertLessThan` on the address count
    | AlreadyWhitelisted    // ALREADY_WHITELISTED_ERROR
    | SpyCannotSetMessage   // SPY_CANNOT_SET_MESSAGE_ERROR
    | MessageAlreadySet     // MESSAGE_ALREADY_SET_ERROR
    | InvalidMessageFlags   // INVALID_MESSAGE_FLAGS_ERROR

  /** What a transaction does: it is applied whole or rejected whole. */
  datatype Outcome = Accepted | Rejected(error: Error)
}
