/** The read-only HTTP queries of the service: one wallet by key, and all
    wallets. Both are functions of the wallet map and change nothing. */
module Api {
  import opened Keys
  import opened Wallets
  import opened Transactions
  import opened Schema
  import Service

  /** An answer of the public API: a value, or "404 Not Found" with a title. */
  datatype QueryResult<T> = Found(value: T) | NotFound(title: string)

  const WALLET_NOT_FOUND: string := "Wallet not found"

  /** Query parameters of the `v1/wallet` endpoint. */
  datatype WalletQuery = WalletQuery(pubKey: PublicKey)

  /** `get_wallet`: the stored wallet, or not-found. */
  function GetWallet(m: WalletMap, query: WalletQuery): (r: QueryResult<Wallet>)
    ensures r.Found? <==> query.pubKey in m
    ensures r.Found? ==> r.value == m[query.pubKey]
    ensures r.NotFound? ==> r.title == WALLET_NOT_FOUND
  {
    if query.pubKey in m then Found(m[query.pubKey]) else NotFound(WALLET_NOT_FOUND)
  }

  /** `get_wallets`: every stored wallet exactly once, in ascending key order
      (the order in which the storage enumerates its keys). It never fails. */
  ghost function GetWallets(m: WalletMap): (r: QueryResult<seq<Wallet>>)
    ensures r.Found?
    ensures exists ks :: && StrictlyAscending(ks) && |ks| == |m| && (forall k :: k in ks <==> k in m)
                         && r.value == ValuesAt(m, ks)
    ensures |r.value| == |m|
    ensures forall k :: k in m ==> m[k] in r.value
    ensures forall w :: w in r.value ==> w in m.Values
    ensures KeysConsistent(m) ==>
      && (forall i :: 0 <= i < |r.value| ==> r.value[i].pubKey in m && m[r.value[i].pubKey] == r.value[i])
      && (forall i, j :: 0 <= i < j < |r.value| ==> Less(r.value[i].pubKey, r.value[j].pubKey))
  {
    var ks := Ascending(m.Keys);
    ListingInKeyOrder(m, ks);
    Found(ValuesAt(m, ks))
  }

  /** Listing the wallets under a strictly ascending enumeration of all keys
      drops no wallet, adds none, and (with consistent keys) lists each wallet
      under its own key in key order. */
  lemma ListingInKeyOrder(m: WalletMap, ks: seq<PublicKey>)
    requires StrictlyAscending(ks) && |ks| == |m| && (forall k :: k in ks <==> k in m)
    ensures exists ks' :: && StrictlyAscending(ks') && |ks'| == |m| && (forall k :: k in ks' <==> k in m)
                          && ValuesAt(m, ks) == ValuesAt(m, ks')
    ensures |ValuesAt(m, ks)| == |m|
    ensures forall k :: k in m ==> m[k] in ValuesAt(m, ks)
    ensures forall w :: w in ValuesAt(m, ks) ==> w in m.Values
    ensures KeysConsistent(m) ==>
      var ws := ValuesAt(m, ks);
      && (forall i :: 0 <= i < |ws| ==> ws[i].pubKey in m && m[ws[i].pubKey] == ws[i])
      && (forall i, j :: 0 <= i < j < |ws| ==> Less(ws[i].pubKey, ws[j].pubKey))
  {
    ValuesAtCoversMap(m, ks);
    if KeysConsistent(m) {
      ValuesAtInKeyOrder(m, ks);
    }
  }

  lemma ValuesAtCoversMap(m: WalletMap, ks: seq<PublicKey>)
    requires forall k :: k in ks <==> k in m
    ensures forall k :: k in m ==> m[k] in ValuesAt(m, ks)
    ensures forall w :: w in ValuesAt(m, ks) ==> w in m.Values
  {
    var ws := ValuesAt(m, ks);
    forall k | k in m
      ensures m[k] in ws
    {
      var i :| 0 <= i < |ks| && ks[i] == k;
      assert ws[i] == m[k];
    }
    forall w | w in ws
      ensures w in m.Values
    {
      var i :| 0 <= i < |ws| && ws[i] == w;
      assert m[ks[i]] == w;
    }
  }

  lemma ValuesAtInKeyOrder(m: WalletMap, ks: seq<PublicKey>)
    requires KeysConsistent(m) && StrictlyAscending(ks) && (forall k :: k in ks ==> k in m)
    ensures var ws := ValuesAt(m, ks);
      && (forall i :: 0 <= i < |ws| ==> ws[i].pubKey in m && m[ws[i].pubKey] == ws[i])
      && (forall i, j :: 0 <= i < j < |ws| ==> Less(ws[i].pubKey, ws[j].pubKey))
  {
    var ws := ValuesAt(m, ks);
    forall i | 0 <= i < |ws|
      ensures ws[i].pubKey == ks[i]
    {
    }
  }

  /** The wallets stored under the keys `ks`, in that order. */
  function ValuesAt(m: WalletMap, ks: seq<PublicKey>): (ws: seq<Wallet>)
    requires forall k :: k in ks ==> k in m
    ensures |ws| == |ks|
    ensures forall i :: 0 <= i < |ks| ==> ws[i] == m[ks[i]]
  {
    seq(|ks|, i requires 0 <= i < |ks| => m[ks[i]])
  }

  /** After a successful creation the new wallet can be queried, with the
      initial balance. */
  lemma CreateThenGet(m: WalletMap, author: PublicKey, arg: TxCreateWallet)
    requires author !in m
    ensures var e := Service.CreateWalletStep(m, author, arg);
      && e.outcome == Service.Ok
      && GetWallet(e.wallets, WalletQuery(author)) == Found(Wallet(author, arg.name, Service.INIT_BALANCE))
  {
  }

  /** Listing after creating two wallets gives both, ordered by key, whichever
      was created first. */
  lemma ListScenario(alice: PublicKey, bob: PublicKey)
    requires Less(alice, bob)
    ensures var a := Service.CreateWalletStep(map[], alice, TxCreateWallet("Alice")).wallets;
      var ab := Service.CreateWalletStep(a, bob, TxCreateWallet("Bob")).wallets;
      var b := Service.CreateWalletStep(map[], bob, TxCreateWallet("Bob")).wallets;
      var ba := Service.CreateWalletStep(b, alice, TxCreateWallet("Alice")).wallets;
      var expected := [Wallet(alice, "Alice", 100), Wallet(bob, "Bob", 100)];
      GetWallets(ab) == Found(expected) && GetWallets(ba) == Found(expected)
  {
    LessIrreflexive(alice);
    var wa, wb := Wallet(alice, "Alice", 100), Wallet(bob, "Bob", 100);
    var ab := map[alice := wa, bob := wb];
    assert Service.CreateWalletStep(Service.CreateWalletStep(map[], alice, TxCreateWallet("Alice")).wallets, bob, TxCreateWallet("Bob")).wallets == ab;
    assert Service.CreateWalletStep(Service.CreateWalletStep(map[], bob, TxCreateWallet("Bob")).wallets, alice, TxCreateWallet("Alice")).wallets == ab;
    TwoWalletsListed(wa, wb);
  }

  lemma TwoWalletsListed(wa: Wallet, wb: Wallet)
    requires Less(wa.pubKey, wb.pubKey)
    ensures GetWallets(map[wa.pubKey := wa, wb.pubKey := wb]) == Found([wa, wb])
  {
    var m := map[wa.pubKey := wa, wb.pubKey := wb];
    LessIrreflexive(wa.pubKey);
    assert m.Keys == {wa.pubKey, wb.pubKey};
    AscendingPair(wa.pubKey, wb.pubKey);
    assert ValuesAt(m, [wa.pubKey, wb.pubKey]) == [wa, wb];
  }

  lemma AscendingPair(a: PublicKey, b: PublicKey)
    requires Less(a, b)
    ensures Ascending({a, b}) == [a, b]
  {
    LessIrreflexive(a);
    LessAsymmetric(a, b);
    assert Least({a, b}) == a;
    assert {a, b} - {a} == {b};
    assert Ascending({b}) == [b];
  }
}
