/** A wallet record and the three value-level operations on it. Balances are
    unsigned 64-bit integers. */
module Wallets {
  import opened Keys

  const U64_MAX: nat := 0xFFFF_FFFF_FFFF_FFFF

  /** Rust's `u64`. */
  type U64 = x: nat | x <= U64_MAX

  datatype Wallet = Wallet(pubKey: PublicKey, name: string, balance: U64)

  /** `Wallet::new`. */
  function NewWallet(pubKey: PublicKey, name: string, balance: U64): (w: Wallet)
    ensures w.pubKey == pubKey && w.name == name && w.balance == balance
  {
    Wallet(pubKey, name, balance)
  }

  /** Same owner and same name: only the balance may differ. */
  predicate SameAccount(w: Wallet, w': Wallet)
  {
    w'.pubKey == w.pubKey && w'.name == w.name
  }

  /** `Wallet::increase`. The `+` is only defined when the sum fits in a `u64`. */
  function Increase(w: Wallet, amount: U64): (r: Wallet)
    requires w.balance + amount <= U64_MAX
    ensures SameAccount(w, r)
    ensures r.balance == w.balance + amount
  {
    NewWallet(w.pubKey, w.name, w.balance + amount)
  }

  /** `Wallet::decrease`, guarded by its debug assertion `balance >= amount`, so
      the result balance is never negative. */
  function Decrease(w: Wallet, amount: U64): (r: Wallet)
    requires amount <= w.balance
    ensures SameAccount(w, r)
    ensures r.balance == w.balance - amount
    ensures r.balance <= w.balance
  {
    NewWallet(w.pubKey, w.name, w.balance - amount)
  }

  lemma DecreaseUndoesIncrease(w: Wallet, amount: U64)
    requires w.balance + amount <= U64_MAX
    ensures Decrease(Increase(w, amount), amount) == w
  {
  }

  lemma IncreaseUndoesDecrease(w: Wallet, amount: U64)
    requires amount <= w.balance
    ensures Increase(Decrease(w, amount), amount) == w
  {
  }
}
