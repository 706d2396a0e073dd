/** The transaction executor of the cryptocurrency service: `create_wallet` and
    `transfer`. Each operation is given twice: as a step function from the old
    wallet map to an outcome and a new map (`CreateWalletStep`, `TransferStep`),
    about which the lemmas below are stated, and as a method of the service
    object that updates its wallet map in place and is proved to follow the
    step function. */
module Service {
  import opened Keys
  import opened Errors
  import opened Wallets
  import opened Transactions
  import opened Schema

  /** Balance of a freshly created wallet. */
  const INIT_BALANCE: U64 := 100

  /** The result of executing one transaction. `Panicked` stands for the
      arithmetic-overflow panic of the unchecked `+` in `Wallet::increase`,
      which aborts the transaction before anything is written. */
  datatype Outcome = Ok | Failed(error: Error) | Panicked

  /** An outcome together with the wallet map after the transaction. */
  datatype Effect = Effect(outcome: Outcome, wallets: WalletMap)

  /** The two interface methods: `create_wallet` (id 0) and `transfer` (id 1). */
  datatype Call = CallCreateWallet(create: TxCreateWallet) | CallTransfer(transfer: TxTransfer)

  /** `create_wallet` as a step: at most the author's key is added, and a
      refusal leaves the map as it was. */
  function CreateWalletStep(m: WalletMap, author: PublicKey, arg: TxCreateWallet): (e: Effect)
    ensures e.outcome != Panicked
    ensures e.wallets.Keys == m.Keys + {author}
    ensures e.outcome != Ok ==> e.wallets == m
  {
    if author !in m then
      Effect(Ok, m[author := NewWallet(author, arg.name, INIT_BALANCE)])
    else
      Effect(Failed(WalletAlreadyExists), m)
  }

  /** `transfer` as a step: the set of wallets never changes, and only an
      `Ok` outcome writes. */
  function TransferStep(m: WalletMap, author: PublicKey, arg: TxTransfer): (e: Effect)
    ensures e.wallets.Keys == m.Keys
    ensures e.outcome != Ok ==> e.wallets == m
  {
    if author == arg.to then Effect(Failed(SenderSameAsReceiver), m)
    else if author !in m then Effect(Failed(SenderNotFound), m)
    else if arg.to !in m then Effect(Failed(ReceiverNotFound), m)
    else
      var sender, receiver := m[author], m[arg.to];
      if sender.balance >= arg.amount then
        if receiver.balance + arg.amount > U64_MAX then Effect(Panicked, m)
        else
          var sender', receiver' := Decrease(sender, arg.amount), Increase(receiver, arg.amount);
          Effect(Ok, m[author := sender'][arg.to := receiver'])
      else Effect(Failed(InsufficientCurrencyAmount), m)
  }

  /** One transaction of either kind: no wallet is ever deleted, and a
      transaction that does not succeed writes nothing. */
  function ExecuteStep(m: WalletMap, author: PublicKey, call: Call): (e: Effect)
    ensures m.Keys <= e.wallets.Keys
    ensures e.outcome != Ok ==> e.wallets == m
  {
    match call
    case CallCreateWallet(arg) => CreateWalletStep(m, author, arg)
    case CallTransfer(arg) => TransferStep(m, author, arg)
  }

  /** What every reachable wallet map satisfies: wallets sit under their own
      keys, and the coins in circulation are exactly the initial balances of
      the wallets created so far. */
  ghost predicate LedgerInvariant(m: WalletMap)
    ensures m == map[] ==> LedgerInvariant(m)
  {
    KeysConsistent(m) && TotalBalance(m) == INIT_BALANCE * |m|
  }

  // ---------------------------------------------------------------------------
  // create_wallet

  /** An author without a wallet gets one with the initial balance. */
  lemma CreateWalletAbsent(m: WalletMap, author: PublicKey, arg: TxCreateWallet)
    requires author !in m
    ensures var e := CreateWalletStep(m, author, arg);
      && e.outcome == Ok
      && author in e.wallets
      && e.wallets[author] == Wallet(author, arg.name, INIT_BALANCE)
  {
  }

  /** An author who already has a wallet is refused and nothing changes. */
  lemma CreateWalletExisting(m: WalletMap, author: PublicKey, arg: TxCreateWallet)
    requires author in m
    ensures CreateWalletStep(m, author, arg) == Effect(Failed(WalletAlreadyExists), m)
  {
  }

  /** The outcome is `Ok` exactly when the author had no wallet, and it is
      never a panic. */
  lemma CreateWalletOkIff(m: WalletMap, author: PublicKey, arg: TxCreateWallet)
    ensures var e := CreateWalletStep(m, author, arg);
      (e.outcome == Ok <==> author !in m) && e.outcome != Panicked
  {
  }

  /** Only the author's entry can change, and one key at most is added. */
  lemma CreateWalletFrame(m: WalletMap, author: PublicKey, arg: TxCreateWallet)
    ensures var e := CreateWalletStep(m, author, arg);
      && e.wallets.Keys == m.Keys + {author}
      && (forall k :: k in m && k != author ==> e.wallets[k] == m[k])
      && (author in m ==> e.wallets[author] == m[author])
  {
  }

  /** Two creations by the same author never both succeed: the second is
      refused, and the wallet made by the first (name and balance) survives. */
  lemma CreateWalletTwice(m: WalletMap, author: PublicKey, first: TxCreateWallet, second: TxCreateWallet)
    ensures var e1 := CreateWalletStep(m, author, first);
      var e2 := CreateWalletStep(e1.wallets, author, second);
      && e2.outcome == Failed(WalletAlreadyExists)
      && e2.wallets == e1.wallets
      && (e1.outcome == Ok ==> e2.wallets[author] == Wallet(author, first.name, INIT_BALANCE))
  {
  }

  // ---------------------------------------------------------------------------
  // transfer

  /** A transfer to oneself is refused whatever the amount and whether or not
      the wallet exists. */
  lemma TransferToSelf(m: WalletMap, author: PublicKey, arg: TxTransfer)
    requires author == arg.to
    ensures TransferStep(m, author, arg) == Effect(Failed(SenderSameAsReceiver), m)
  {
  }

  /** A missing sender is reported before a missing receiver is looked for. */
  lemma TransferSenderMissing(m: WalletMap, author: PublicKey, arg: TxTransfer)
    requires author != arg.to && author !in m
    ensures TransferStep(m, author, arg) == Effect(Failed(SenderNotFound), m)
  {
  }

  lemma TransferReceiverMissing(m: WalletMap, author: PublicKey, arg: TxTransfer)
    requires author != arg.to && author in m && arg.to !in m
    ensures TransferStep(m, author, arg) == Effect(Failed(ReceiverNotFound), m)
  {
  }

  lemma TransferInsufficient(m: WalletMap, author: PublicKey, arg: TxTransfer)
    requires author != arg.to && author in m && arg.to in m
    requires m[author].balance < arg.amount
    ensures TransferStep(m, author, arg) == Effect(Failed(InsufficientCurrencyAmount), m)
  {
  }

  /** A transfer succeeds exactly when all four checks pass and the receiver's
      new balance fits in a `u64`. */
  lemma TransferOkIff(m: WalletMap, author: PublicKey, arg: TxTransfer)
    ensures TransferStep(m, author, arg).outcome == Ok <==>
      && author != arg.to
      && author in m
      && arg.to in m
      && arg.amount <= m[author].balance
      && m[arg.to].balance + arg.amount <= U64_MAX
  {
  }

  /** Every refusal, and the overflow panic, writes nothing. */
  lemma TransferRejectionWritesNothing(m: WalletMap, author: PublicKey, arg: TxTransfer)
    requires TransferStep(m, author, arg).outcome != Ok
    ensures TransferStep(m, author, arg).wallets == m
  {
  }

  /** A successful transfer moves `amount` from sender to receiver, keeps both
      owners and names, conserves their sum and touches no other wallet. */
  lemma TransferSuccess(m: WalletMap, author: PublicKey, arg: TxTransfer)
    requires TransferStep(m, author, arg).outcome == Ok
    ensures var m' := TransferStep(m, author, arg).wallets;
      && author in m && arg.to in m && m'.Keys == m.Keys
      && m'[author].balance == m[author].balance - arg.amount
      && m'[arg.to].balance == m[arg.to].balance + arg.amount
      && m'[author].balance + m'[arg.to].balance == m[author].balance + m[arg.to].balance
      && SameAccount(m[author], m'[author]) && SameAccount(m[arg.to], m'[arg.to])
      && (forall k :: k in m && k != author && k != arg.to ==> m'[k] == m[k])
  {
  }

  /** The seed is never read: two transfers that differ only in it have the
      same effect. */
  lemma TransferIgnoresSeed(m: WalletMap, author: PublicKey, arg: TxTransfer, seed: U64)
    ensures TransferStep(m, author, arg) == TransferStep(m, author, arg.(seed := seed))
  {
  }

  // ---------------------------------------------------------------------------
  // Total supply

  lemma CreateWalletMintsInitBalance(m: WalletMap, author: PublicKey, arg: TxCreateWallet)
    ensures var e := CreateWalletStep(m, author, arg);
      TotalBalance(e.wallets) == TotalBalance(m) + (if e.outcome == Ok then INIT_BALANCE else 0)
  {
    if author !in m {
      TotalAfterInsert(m, author, NewWallet(author, arg.name, INIT_BALANCE));
    }
  }

  /** No transfer changes the total balance of all wallets. */
  lemma TransferConservesTotal(m: WalletMap, author: PublicKey, arg: TxTransfer)
    ensures TotalBalance(TransferStep(m, author, arg).wallets) == TotalBalance(m)
  {
    var e := TransferStep(m, author, arg);
    if e.outcome == Ok {
      var sender' := Decrease(m[author], arg.amount);
      var m1 := m[author := sender'];
      TotalAfterUpdate(m, author, sender');
      TotalAfterUpdate(m1, arg.to, Increase(m[arg.to], arg.amount));
    }
  }

  /** The overflow panic cannot happen while all coins together fit in a `u64`. */
  lemma TransferNeverPanicsWithinSupply(m: WalletMap, author: PublicKey, arg: TxTransfer)
    requires TotalBalance(m) <= U64_MAX
    ensures TransferStep(m, author, arg).outcome != Panicked
  {
    if author != arg.to && author in m && arg.to in m {
      PairBelowTotal(m, author, arg.to);
    }
  }

  /** Every transaction keeps the ledger invariant. */
  lemma ExecutePreservesInvariant(m: WalletMap, author: PublicKey, call: Call)
    requires LedgerInvariant(m)
    ensures LedgerInvariant(ExecuteStep(m, author, call).wallets)
  {
    match call
    case CallCreateWallet(arg) =>
      CreateWalletMintsInitBalance(m, author, arg);
      if author !in m {
        assert |m[author := NewWallet(author, arg.name, INIT_BALANCE)]| == |m| + 1;
      }
    case CallTransfer(arg) =>
      TransferConservesTotal(m, author, arg);
  }

  /** The state of the service: its wallet map, updated in place. */
  class CryptocurrencyService {
    var wallets: WalletMap

    ghost predicate Valid()
      reads this
    {
      LedgerInvariant(wallets)
    }

    /** A service with no wallets yet. */
    constructor ()
      ensures Valid() && wallets == map[]
    {
      wallets := map[];
    }

    /** `create_wallet`: the author is the authenticated caller. */
    method CreateWallet(author: PublicKey, arg: TxCreateWallet) returns (r: Outcome)
      requires Valid()
      modifies this
      ensures Valid()
      ensures Effect(r, wallets) == CreateWalletStep(old(wallets), author, arg)
    {
      ExecutePreservesInvariant(wallets, author, CallCreateWallet(arg));
      if author !in wallets {
        var wallet := NewWallet(author, arg.name, INIT_BALANCE);
        wallets := wallets[author := wallet];
        r := Ok;
      } else {
        r := Failed(WalletAlreadyExists);
      }
    }

    /** `transfer`: the checks run in the source's order and return early;
        the two writes happen only after all of them have passed. */
    method Transfer(author: PublicKey, arg: TxTransfer) returns (r: Outcome)
      requires Valid()
      modifies this
      ensures Valid()
      ensures Effect(r, wallets) == TransferStep(old(wallets), author, arg)
      ensures INIT_BALANCE * |old(wallets)| <= U64_MAX ==> r != Panicked
    {
      ExecutePreservesInvariant(wallets, author, CallTransfer(arg));
      if TotalBalance(wallets) <= U64_MAX {
        TransferNeverPanicsWithinSupply(wallets, author, arg);
      }
      if author == arg.to {
        return Failed(SenderSameAsReceiver);
      }
      if author !in wallets {
        return Failed(SenderNotFound);
      }
      var sender := wallets[author];
      if arg.to !in wallets {
        return Failed(ReceiverNotFound);
      }
      var receiver := wallets[arg.to];
      var amount := arg.amount;
      if sender.balance >= amount {
        var sender' := Decrease(sender, amount);
        if receiver.balance + amount > U64_MAX {
          return Panicked;
        }
        var receiver' := Increase(receiver, amount);
        wallets := wallets[author := sender'];
        wallets := wallets[arg.to := receiver'];
        return Ok;
      } else {
        return Failed(InsufficientCurrencyAmount);
      }
    }

    /** Dispatch of one transaction to its interface method. */
    method Execute(author: PublicKey, call: Call) returns (r: Outcome)
      requires Valid()
      modifies this
      ensures Valid()
      ensures Effect(r, wallets) == ExecuteStep(old(wallets), author, call)
    {
      match call
      case CallCreateWallet(arg) =>
        r := CreateWallet(author, arg);
      case CallTransfer(arg) =>
        r := Transfer(author, arg);
    }
  }

  /** The executor-side scenario: Alice is created, a transfer to Bob fails
      until Bob exists, then succeeds, and an overdraft is refused. */
  lemma TransferScenario(alice: PublicKey, bob: PublicKey)
    requires alice != bob
    ensures var s1 := CreateWalletStep(map[], alice, TxCreateWallet("Alice"));
      var s2 := TransferStep(s1.wallets, alice, TxTransfer(bob, 30, 0));
      var s3 := CreateWalletStep(s2.wallets, bob, TxCreateWallet("Bob"));
      var s4 := TransferStep(s3.wallets, alice, TxTransfer(bob, 30, 1));
      var s5 := TransferStep(s4.wallets, alice, TxTransfer(bob, 1000, 2));
      && s1.outcome == Ok && s1.wallets[alice].balance == 100
      && s2.outcome == Failed(ReceiverNotFound) && s2.wallets[alice].balance == 100
      && s3.outcome == Ok && s3.wallets[bob].balance == 100
      && s4.outcome == Ok && s4.wallets[alice].balance == 70 && s4.wallets[bob].balance == 130
      && s5.outcome == Failed(InsufficientCurrencyAmount) && s5.wallets == s4.wallets
  {
  }
}
