/** What every contract of the chain shares: addresses, coins and the width of token amounts. */
module Cosmos {
  type Addr = string

  datatype Coin = Coin(denom: string, amount: nat)

  /** Token amounts have 128 bits. */
  const U128_LIMIT: nat := 0x1_0000_0000_0000_0000_0000_0000_0000_0000

  /** Stored as the target of an admin call while an upgrade is open. */
  const CALLING_TO_AS_ADMIN_WILD_CARD: Addr := "calling-to-wild-card"
}
