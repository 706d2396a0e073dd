/** Transaction payloads. The transaction author is not part of either payload:
    it is the authenticated caller and is passed to the executor separately. */
module Transactions {
  import opened Keys
  import opened Wallets

  /** Create a wallet with the given name for the author. */
  datatype TxCreateWallet = TxCreateWallet(name: string)

  /** Move `amount` from the author's wallet to `to`. `seed` only makes
      otherwise identical transfers distinct; the executor never reads it. */
  datatype TxTransfer = TxTransfer(to: PublicKey, amount: U64, seed: U64)
}
