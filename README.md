# Exonum cryptocurrency service: a Dafny model of its ledger

The service keeps a map from public key to `Wallet` (owner key, name, `u64`
balance). Two transactions change it:

- `create_wallet` gives the author a wallet with balance 100, unless the
  author already has one.
- `transfer` moves an amount from the author's wallet to another one. Its
  checks run in a fixed order: sender and receiver differ, the sender exists,
  the receiver exists, the balance is sufficient.

Two HTTP queries read the map: one wallet by key, and all wallets. Every
rejection is a typed error with a fixed numeric code, and it writes nothing.

Layout, one module per source file, plus one for the key type:

- `keys.dfy` (`Keys`): has no source file of this repository behind it. It
  stands for the external `exonum::crypto::PublicKey`: the 32-byte key type,
  and the byte-wise order that the storage lists keys in.
- `errors.dfy` (`Errors`): the error enum and its codes.
- `wallets.dfy` (`Wallets`): `u64` as the subset type `U64`, the `Wallet`
  record, and `NewWallet`, `Increase` and `Decrease`.
- `transactions.dfy` (`Transactions`): the two transaction payloads.
- `schema.dfy` (`Schema`): the wallet map, and the total balance of all
  wallets with its update lemmas.
- `service.dfy` (`Service`): the executor. Each transaction is a step function
  from the old map to an outcome and a new map. The lemmas state the
  transaction's properties about that function. The class
  `CryptocurrencyService` holds the wallet map as a field. Its methods update
  the field in place, with the same early returns as the Rust code, and are
  proved to follow the step functions. Its invariant says that the total
  balance is always 100 times the number of wallets.
- `api.dfy` (`Api`): `get_wallet` and `get_wallets` as functions of the map.

The transaction author is an explicit parameter, because the framework supplies
it as the authenticated caller. The unchecked `+` in `Wallet::increase` is given
a precondition: the sum must fit in a `u64`. `transfer` only calls `increase`
when that holds; otherwise the addition would overflow, and the model shows the
overflow as the outcome `Panicked`, with no write. The panic comes before both
`put` calls. The model proves the panic cannot happen while all coins together
fit in a `u64`. That holds while there are fewer than about 1.8·10^17 wallets,
because the total is always 100 per wallet.

## Model

| member | source | states |
|---|---|---|
| `Errors.Code` | src/error.rs:10-21 | every error's numeric code lies in 0..4 |
| `Errors.CodeValues` | src/error.rs:12-20 | WalletAlreadyExists=0, SenderNotFound=1, ReceiverNotFound=2, InsufficientCurrencyAmount=3, SenderSameAsReceiver=4 |
| `Errors.CodeInjective` | src/error.rs:10-21 | two errors with the same code are the same error (codes are pairwise distinct) |
| `Errors.CodeOnto` | src/error.rs:10-21 | every code 0..4 belongs to some error |
| `Wallets.NewWallet` | src/wallets.rs:19-25 | the wallet holds exactly the given key, name and balance |
| `Wallets.Increase` | src/wallets.rs:27-30 | requires the sum to fit in u64; same key and name, balance raised by `amount` |
| `Wallets.Decrease` | src/wallets.rs:32-36 | requires `balance >= amount` (the debug assertion); same key and name, balance lowered by `amount`, never negative |
| `Wallets.DecreaseUndoesIncrease` | src/wallets.rs:27-36 | `decrease(increase(w, a), a) == w` whenever `increase` is defined |
| `Wallets.IncreaseUndoesDecrease` | src/wallets.rs:27-36 | `increase(decrease(w, a), a) == w` whenever `decrease` is defined |
| `Service.CreateWalletStep` | src/service_interface.rs:54-61 | `create_wallet` as a step on the map: never panics, the key set becomes the old keys plus the author, and a refusal returns the old map; its per-case outcomes are stated by the `CreateWallet*` lemmas below |
| `Service.TransferStep` | src/service_interface.rs:73-94 | `transfer` as a step on the map: the key set never changes, and every outcome other than `Ok` returns the old map; the check order, success condition and balance moves are stated by the `Transfer*` lemmas below |
| `Service.ExecuteStep` | src/service_interface.rs:19-23 | dispatch of a call to its interface method: no wallet is ever deleted, and an unsuccessful call returns the old map |
| `Service.LedgerInvariant` | src/service_interface.rs:43-95 | the empty ledger satisfies it; wallets sit under their own keys and the total balance is 100 per wallet, kept by every transaction (`Service.ExecutePreservesInvariant`) |
| `Service.CreateWalletAbsent` | src/service_interface.rs:54-58 | an author without a wallet gets `Ok` and the wallet `{author, name, 100}` under key `author` |
| `Service.CreateWalletExisting` | src/service_interface.rs:54-61 | an author with a wallet gets `WalletAlreadyExists` and the map is unchanged |
| `Service.CreateWalletOkIff` | src/service_interface.rs:54-61 | creation succeeds if and only if the author has no wallet; it never panics |
| `Service.CreateWalletFrame` | src/service_interface.rs:54-61 | the key set grows by the author at most; every other entry, and an existing author's entry, keeps its value |
| `Service.CreateWalletTwice` | src/service_interface.rs:54-61 | a second creation by the same author always fails, writes nothing, and the first call's wallet keeps its name and balance |
| `Service.TransferToSelf` | src/service_interface.rs:73-75 | `author == to` gives `SenderSameAsReceiver` with the map unchanged, for any amount, whether or not the wallet exists |
| `Service.TransferSenderMissing` | src/service_interface.rs:78 | a missing sender gives `SenderNotFound`, whether or not the receiver exists, with the map unchanged |
| `Service.TransferReceiverMissing` | src/service_interface.rs:79-82 | an existing sender and a missing receiver give `ReceiverNotFound` with the map unchanged |
| `Service.TransferInsufficient` | src/service_interface.rs:84-94 | a balance below `amount` gives `InsufficientCurrencyAmount` with the map unchanged |
| `Service.TransferOkIff` | src/service_interface.rs:73-94 | a transfer succeeds if and only if all four checks pass and the receiver's new balance fits in u64 |
| `Service.TransferRejectionWritesNothing` | src/service_interface.rs:73-94 | every outcome other than `Ok` leaves the map exactly as it was |
| `Service.TransferSuccess` | src/service_interface.rs:84-91 | on success the sender loses `amount`, the receiver gains it, their sum is conserved, names and keys are kept, no key is added and all other entries are untouched |
| `Service.TransferIgnoresSeed` | src/service_interface.rs:64-95 | changing only the seed changes neither the outcome nor the new map |
| `Service.CreateWalletMintsInitBalance` | src/service_interface.rs:54-58 | a successful creation adds exactly 100 to the total balance of all wallets; a refusal adds nothing |
| `Service.TransferConservesTotal` | src/service_interface.rs:84-91 | no transfer changes the total balance of all wallets |
| `Service.TransferNeverPanicsWithinSupply` | src/service_interface.rs:84-87 | while the total balance fits in u64, the receiver's `increase` cannot overflow |
| `Service.ExecutePreservesInvariant` | src/service_interface.rs:40-95 | every transaction keeps wallets stored under their own keys and keeps the total balance at 100 per wallet |
| `Service.CryptocurrencyService.CreateWallet` | src/service_interface.rs:43-62 | the in-place map update and the outcome are those of the creation step; the invariant is kept |
| `Service.CryptocurrencyService.Transfer` | src/service_interface.rs:64-95 | the early-return checks and the two writes give the transfer step's outcome and map; the invariant is kept; with fewer than 2^64/100 wallets the outcome is never a panic |
| `Service.CryptocurrencyService.Execute` | src/service_interface.rs:13-23 | dispatch on the interface method gives the matching step's effect |
| `Service.TransferScenario` | src/service_interface.rs:43-95 | the Alice/Bob sequence: a transfer before Bob exists fails with Alice at 100; after Bob is created, transferring 30 leaves 70 and 130; transferring 1000 is refused and changes nothing |
| `Api.GetWallet` | src/cryptoapi.rs:40-49 | found if and only if the key is stored, and then exactly the stored wallet; otherwise not-found titled "Wallet not found" |
| `Api.GetWallets` | src/cryptoapi.rs:52-58 | never fails; the listing is the stored wallets taken under some strictly ascending, duplicate-free enumeration of all stored keys, so one entry per key, in key order, for every map; every stored wallet is present and nothing else; with consistent keys, entry i is the wallet stored under its key and the entries ascend by key |
| `Api.CreateThenGet` | src/cryptoapi.rs:44-48 | after a successful creation, `get_wallet(author)` returns that wallet with balance 100 |
| `Api.ListScenario` | src/cryptoapi.rs:52-58 | after creating two wallets, in either order, the listing is both of them ordered by key |

Both queries are functions of the map, so they cannot change it.
Non-negative balances follow from the type: every balance is a `U64`.
`Decrease`'s precondition is what keeps a subtraction from going below zero.
`transfer` only calls `Decrease` after the balance check.

## Left out

- HTTP wiring is not modelled: `wire`, the `Handle` alias, `ServiceApiState`,
  the async machinery and the `DefaultInstance` constants (src/cryptoapi.rs:60-74).
  This is framework routing.
- The storage is a Dafny map. The merkle-backed `MapIndex`, `CurrencySchema::new`
  and its `unwrap` (src/schema.rs) are not modelled.
- `Api.GetWallets`: the ascending key order is an assumption. It is what the
  storage's `values()` iterator gives, and that library is not part of this
  model. The model takes the strict byte-wise order of the 32-byte keys.
- Protobuf, serde, `BinaryValue` and `ObjectHash` are not modelled. These are
  serialisation derivations on the transaction and wallet structs. Only the
  struct shapes are kept.
- Authentication is a parameter. `caller().author().expect(...)` becomes the
  `author` argument, so its panic on a missing author is not modelled.
- Logging is I/O and is not modelled: the two `println!` calls.
- Dispatch is a match on the `Call` datatype. The `#[exonum_interface]` and
  service-dispatcher macros are replaced by that match. The interface method ids
  0 and 1 appear only as documentation.
- Framework atomicity is not modelled: rolling back the fork, and turning a
  panic into an execution error. The code makes no write before its checks
  pass, so every failing outcome simply leaves the map unchanged.
- `Service.CryptocurrencyService.Transfer` does not model release builds that
  turn off overflow checks. There the unchecked `+` in `increase` would wrap
  around instead of panicking. The model follows checked arithmetic, and
  `TransferNeverPanicsWithinSupply` shows the case cannot arise in realistic
  states.
- Node bootstrap and module declarations are not modelled: examples/demo.rs and
  src/lib.rs.
- `INIT_BALANCE` is declared again, unused, in src/cryptoapi.rs:19. The
  model's one constant is the one from src/service_interface.rs:10.
