/** The service's storage: one map from public key to wallet. This file also
    defines the total balance held by all wallets, used to state that money is
    neither created nor destroyed except by wallet creation. */
module Schema {
  import opened Keys
  import opened Wallets

  /** `CurrencySchema::wallets`. */
  type WalletMap = map<PublicKey, Wallet>

  /** Every wallet is stored under its own public key. */
  ghost predicate KeysConsistent(m: WalletMap)
  {
    forall k :: k in m ==> m[k].pubKey == k
  }

  /** Sum of the balances of the wallets stored under the keys `ks`. */
  ghost function BalanceSum(m: WalletMap, ks: set<PublicKey>): (sum: nat)
    requires ks <= m.Keys
    decreases ks
  {
    if ks == {} then 0
    else
      var k :| k in ks;
      m[k].balance + BalanceSum(m, ks - {k})
  }

  ghost function TotalBalance(m: WalletMap): (total: nat)
  {
    BalanceSum(m, m.Keys)
  }

  /** The sum does not depend on which key is taken out first. */
  lemma {:induction false} BalanceSumRemove(m: WalletMap, ks: set<PublicKey>, k: PublicKey)
    requires ks <= m.Keys && k in ks
    ensures BalanceSum(m, ks) == m[k].balance + BalanceSum(m, ks - {k})
    decreases ks
  {
    var j :| j in ks && BalanceSum(m, ks) == m[j].balance + BalanceSum(m, ks - {j});
    if j != k {
      BalanceSumRemove(m, ks - {j}, k);
      BalanceSumRemove(m, ks - {k}, j);
      assert ks - {j} - {k} == ks - {k} - {j};
    }
  }

  /** The sum over `ks` only reads the balances stored under `ks`. */
  lemma {:induction false} BalanceSumFrame(m: WalletMap, m': WalletMap, ks: set<PublicKey>)
    requires ks <= m.Keys && ks <= m'.Keys
    requires forall k :: k in ks ==> m[k].balance == m'[k].balance
    ensures BalanceSum(m, ks) == BalanceSum(m', ks)
    decreases ks
  {
    if ks != {} {
      var j :| j in ks && BalanceSum(m, ks) == m[j].balance + BalanceSum(m, ks - {j});
      BalanceSumRemove(m', ks, j);
      BalanceSumFrame(m, m', ks - {j});
    }
  }

  /** Storing a wallet under a new key adds its balance to the total. */
  lemma TotalAfterInsert(m: WalletMap, k: PublicKey, w: Wallet)
    requires k !in m
    ensures TotalBalance(m[k := w]) == TotalBalance(m) + w.balance
  {
    var m' := m[k := w];
    BalanceSumRemove(m', m'.Keys, k);
    assert m'.Keys - {k} == m.Keys;
    BalanceSumFrame(m, m', m.Keys);
  }

  /** Replacing the wallet under an existing key swaps its balance in the total. */
  lemma TotalAfterUpdate(m: WalletMap, k: PublicKey, w: Wallet)
    requires k in m
    ensures TotalBalance(m[k := w]) + m[k].balance == TotalBalance(m) + w.balance
  {
    var m' := m[k := w];
    assert m'.Keys == m.Keys;
    BalanceSumRemove(m, m.Keys, k);
    BalanceSumRemove(m', m.Keys, k);
    BalanceSumFrame(m, m', m.Keys - {k});
  }

  /** Two distinct wallets together hold no more than the total. */
  lemma PairBelowTotal(m: WalletMap, a: PublicKey, b: PublicKey)
    requires a in m && b in m && a != b
    ensures m[a].balance + m[b].balance <= TotalBalance(m)
  {
    BalanceSumRemove(m, m.Keys, a);
    BalanceSumRemove(m, m.Keys - {a}, b);
  }
}
