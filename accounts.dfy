/**
 * `accountsSynchronizer`: on every keyring emission, diff the addresses the store
 * already knows against the keyring snapshot and dispatch one removal per address
 * that disappeared, then one upsert per distinct address of the snapshot.
 */
module Accounts {
  import opened Common
  import opened Lodash

  /** One keyring entry as the keyring observer delivers it. */
  datatype KeyringAccount = KeyringAccount(address: string, name: Option<string>)

  /** The two store actions the synchronizer dispatches. */
  datatype AccountAction =
    | RemoveAccountGlobally(address: string)
    | SetAccountGlobally(address: string, name: Option<string>)

  /** The snapshot's addresses: one per keyring entry, duplicates included. */
  function Addresses(accountsData: seq<KeyringAccount>): (r: seq<string>)
    ensures |r| == |accountsData|
    ensures forall a :: a in r <==> exists e :: e in accountsData && e.address == a
  {
    var r := seq(|accountsData|, i requires 0 <= i < |accountsData| => accountsData[i].address);
    assert forall e :: e in accountsData ==> e.address in r by {
      forall e | e in accountsData ensures e.address in r {
        var i :| 0 <= i < |accountsData| && accountsData[i] == e;
        assert r[i] == e.address;
      }
    }
    r
  }

  /** The name of the first snapshot entry with the address; none when no entry has it. */
  function AccountName(accountsData: seq<KeyringAccount>, address: string): (r: Option<string>)
    ensures address !in Addresses(accountsData) ==> r == None
  {
    if accountsData == [] then None
    else if accountsData[0].address == address then
      assert Addresses(accountsData)[0] == address;
      accountsData[0].name
    else
      assert Addresses(accountsData[1..]) == Addresses(accountsData)[1..];
      AccountName(accountsData[1..], address)
  }

  /** The name found is that of the FIRST snapshot entry carrying the address. */
  lemma {:induction false} AccountNameIsFirstMatch(accountsData: seq<KeyringAccount>, address: string, i: nat)
    requires i < |accountsData| && accountsData[i].address == address
    requires forall j :: 0 <= j < i ==> accountsData[j].address != address
    ensures AccountName(accountsData, address) == accountsData[i].name
  {
    if i > 0 {
      AccountNameIsFirstMatch(accountsData[1..], address, i - 1);
    }
  }

  function Removals(removed: seq<string>): (r: seq<AccountAction>)
    ensures forall a :: a in r ==> a.RemoveAccountGlobally? && a.address in removed
  {
    var r := seq(|removed|, i requires 0 <= i < |removed| => RemoveAccountGlobally(removed[i]));
    assert forall a :: a in r ==> a.RemoveAccountGlobally? && a.address in removed by {
      forall a | a in r ensures a.RemoveAccountGlobally? && a.address in removed {
        var i :| 0 <= i < |r| && r[i] == a;
      }
    }
    r
  }

  function Upserts(addresses: seq<string>, accountsData: seq<KeyringAccount>): (r: seq<AccountAction>)
    ensures forall a :: a in r ==>
      a.SetAccountGlobally? && a.address in addresses && a.name == AccountName(accountsData, a.address)
  {
    var r := seq(|addresses|, i requires 0 <= i < |addresses| =>
      SetAccountGlobally(addresses[i], AccountName(accountsData, addresses[i])));
    assert forall a :: a in r ==>
      a.SetAccountGlobally? && a.address in addresses && a.name == AccountName(accountsData, a.address) by {
      forall a | a in r
        ensures a.SetAccountGlobally? && a.address in addresses && a.name == AccountName(accountsData, a.address)
      {
        var i :| 0 <= i < |r| && r[i] == a;
      }
    }
    r
  }

  /**
   * The actions one keyring emission dispatches, in dispatch order. Every removal is
   * of a previous address missing from the snapshot, and every upsert is of a
   * snapshot address, carrying that address's name.
   */
  function Synchronize(prevAccounts: seq<string>, accountsData: seq<KeyringAccount>): (r: seq<AccountAction>)
    ensures forall a :: a in r && a.RemoveAccountGlobally? ==>
      a.address in prevAccounts && a.address !in Addresses(accountsData)
    ensures forall a :: a in r && a.SetAccountGlobally? ==>
      a.address in Addresses(accountsData) && a.name == AccountName(accountsData, a.address)
  {
    var accounts := Addresses(accountsData);
    var newAccounts := Difference(accounts, prevAccounts);
    var removedAccounts := Difference(prevAccounts, accounts);
    var preExistingAccounts := Intersection(prevAccounts, accounts);
    Removals(removedAccounts) + Upserts(Union(newAccounts, preExistingAccounts), accountsData)
  }

  /** The addresses of the removal actions, in order. */
  function RemovedIn(actions: seq<AccountAction>): seq<string> {
    if actions == [] then []
    else (if actions[0].RemoveAccountGlobally? then [actions[0].address] else []) + RemovedIn(actions[1..])
  }

  /** The addresses of the upsert actions, in order. */
  function UpsertedIn(actions: seq<AccountAction>): seq<string> {
    if actions == [] then []
    else (if actions[0].SetAccountGlobally? then [actions[0].address] else []) + UpsertedIn(actions[1..])
  }

  lemma {:induction false} FiltersAppend(a: seq<AccountAction>, b: seq<AccountAction>)
    ensures RemovedIn(a + b) == RemovedIn(a) + RemovedIn(b)
    ensures UpsertedIn(a + b) == UpsertedIn(a) + UpsertedIn(b)
  {
    if a != [] {
      assert (a + b)[0] == a[0] && (a + b)[1..] == a[1..] + b;
      FiltersAppend(a[1..], b);
      var rem := if a[0].RemoveAccountGlobally? then [a[0].address] else [];
      var ups := if a[0].SetAccountGlobally? then [a[0].address] else [];
      assert RemovedIn(a + b) == rem + (RemovedIn(a[1..]) + RemovedIn(b));
      assert UpsertedIn(a + b) == ups + (UpsertedIn(a[1..]) + UpsertedIn(b));
    } else {
      assert a + b == b;
    }
  }

  lemma {:induction false} FiltersOfRemovals(removed: seq<string>)
    ensures RemovedIn(Removals(removed)) == removed
    ensures UpsertedIn(Removals(removed)) == []
  {
    if removed != [] {
      assert Removals(removed)[1..] == Removals(removed[1..]);
      FiltersOfRemovals(removed[1..]);
    }
  }

  lemma {:induction false} FiltersOfUpserts(addresses: seq<string>, accountsData: seq<KeyringAccount>)
    ensures RemovedIn(Upserts(addresses, accountsData)) == []
    ensures UpsertedIn(Upserts(addresses, accountsData)) == addresses
  {
    if addresses != [] {
      assert Upserts(addresses, accountsData)[1..] == Upserts(addresses[1..], accountsData);
      FiltersOfUpserts(addresses[1..], accountsData);
    }
  }

  /** Every removal is dispatched before any upsert. */
  lemma SynchronizeRemovesFirst(prevAccounts: seq<string>, accountsData: seq<KeyringAccount>)
    ensures var r := Synchronize(prevAccounts, accountsData);
      forall i, j :: 0 <= i < j < |r| && r[j].RemoveAccountGlobally? ==> r[i].RemoveAccountGlobally?
  {
  }

  /**
   * The removals are exactly the previously known addresses missing from the
   * snapshot, as often as they occur in the previous list; so with a duplicate-free
   * previous list each vanished address is removed exactly once.
   */
  lemma SynchronizeRemovesVanished(prevAccounts: seq<string>, accountsData: seq<KeyringAccount>)
    ensures var removed := RemovedIn(Synchronize(prevAccounts, accountsData));
      forall a :: multiset(removed)[a] == if a in Addresses(accountsData) then 0 else multiset(prevAccounts)[a]
    ensures NoDup(prevAccounts) ==>
      forall a :: a in prevAccounts && a !in Addresses(accountsData) ==>
        multiset(RemovedIn(Synchronize(prevAccounts, accountsData)))[a] == 1
  {
    var accounts := Addresses(accountsData);
    var removed := Difference(prevAccounts, accounts);
    var upserted := Union(Difference(accounts, prevAccounts), Intersection(prevAccounts, accounts));
    FiltersAppend(Removals(removed), Upserts(upserted, accountsData));
    FiltersOfRemovals(removed);
    FiltersOfUpserts(upserted, accountsData);
    if NoDup(prevAccounts) {
      forall a | a in prevAccounts
        ensures multiset(prevAccounts)[a] == 1
      {
        NoDupOccursOnce(prevAccounts, a);
      }
    }
  }

  lemma {:induction false} NoDupOccursOnce(s: seq<string>, a: string)
    requires NoDup(s) && a in s
    ensures multiset(s)[a] == 1
  {
    assert s == [s[0]] + s[1..];
    if s[0] == a {
      assert a !in s[1..];
    } else {
      NoDupOccursOnce(s[1..], a);
    }
  }

  /**
   * The upserted addresses are the distinct addresses of the snapshot, each once,
   * and each upsert carries the name of the first snapshot entry for its address.
   */
  lemma SynchronizeUpsertsSnapshot(prevAccounts: seq<string>, accountsData: seq<KeyringAccount>)
    ensures var r := Synchronize(prevAccounts, accountsData);
      && NoDup(UpsertedIn(r))
      && (forall a :: a in UpsertedIn(r) <==> a in Addresses(accountsData))
      && (forall i :: 0 <= i < |r| && r[i].SetAccountGlobally? ==>
            r[i].name == AccountName(accountsData, r[i].address))
  {
    var accounts := Addresses(accountsData);
    var upserted := Union(Difference(accounts, prevAccounts), Intersection(prevAccounts, accounts));
    SynchronizeSplits(prevAccounts, accountsData);
    forall a
      ensures a in upserted <==> a in accounts
    {
      assert a in upserted <==> a in Difference(accounts, prevAccounts) || a in Intersection(prevAccounts, accounts);
    }
  }

  /** The dispatched actions are the removals followed by the upserts of the union, named by first match. */
  lemma SynchronizeSplits(prevAccounts: seq<string>, accountsData: seq<KeyringAccount>)
    ensures var accounts := Addresses(accountsData);
      var r := Synchronize(prevAccounts, accountsData);
      && UpsertedIn(r) == Union(Difference(accounts, prevAccounts), Intersection(prevAccounts, accounts))
      && (forall i :: 0 <= i < |r| && r[i].SetAccountGlobally? ==>
            r[i].name == AccountName(accountsData, r[i].address))
  {
    var accounts := Addresses(accountsData);
    var removed := Difference(prevAccounts, accounts);
    var upserted := Union(Difference(accounts, prevAccounts), Intersection(prevAccounts, accounts));
    var r := Synchronize(prevAccounts, accountsData);
    var rs, us := Removals(removed), Upserts(upserted, accountsData);
    assert r == rs + us;
    FiltersAppend(rs, us);
    FiltersOfRemovals(removed);
    FiltersOfUpserts(upserted, accountsData);
    forall i | 0 <= i < |r| && r[i].SetAccountGlobally?
      ensures r[i].name == AccountName(accountsData, r[i].address)
    {
      if i >= |rs| {
        assert r[i] == us[i - |rs|];
      }
    }
  }

  /**
   * A store of address -> name, as the two actions are meant to update it: a removal
   * deletes the address, an upsert writes its name.
   */
  function Apply(store: map<string, Option<string>>, actions: seq<AccountAction>): map<string, Option<string>>
    decreases |actions|
  {
    if actions == [] then store
    else
      var next := match actions[0]
        case RemoveAccountGlobally(a) => store - {a}
        case SetAccountGlobally(a, name) => store[a := name];
      Apply(next, actions[1..])
  }

  /** The addresses of a list, as a set. */
  function AddressSet(addresses: seq<string>): set<string> {
    set a | a in addresses
  }

  /** Each address of the list mapped to the name of its first snapshot entry. */
  function NamesOf(addresses: seq<string>, accountsData: seq<KeyringAccount>): map<string, Option<string>> {
    map a | a in addresses :: AccountName(accountsData, a)
  }

  lemma {:induction false} ApplyAppend(store: map<string, Option<string>>, a: seq<AccountAction>, b: seq<AccountAction>)
    ensures Apply(store, a + b) == Apply(Apply(store, a), b)
    decreases |a|
  {
    if a != [] {
      assert (a + b)[0] == a[0] && (a + b)[1..] == a[1..] + b;
      assert a + b != [];
      var next := match a[0]
        case RemoveAccountGlobally(x) => store - {x}
        case SetAccountGlobally(x, name) => store[x := name];
      ApplyAppend(next, a[1..], b);
    } else {
      assert a + b == b;
    }
  }

  lemma {:induction false} ApplyRemovals(store: map<string, Option<string>>, removed: seq<string>)
    ensures Apply(store, Removals(removed)) == store - AddressSet(removed)
  {
    if removed != [] {
      assert Removals(removed)[1..] == Removals(removed[1..]);
      ApplyRemovals(store - {removed[0]}, removed[1..]);
      assert AddressSet(removed) == {removed[0]} + AddressSet(removed[1..]);
    }
  }

  lemma {:induction false} ApplyUpserts(store: map<string, Option<string>>, addresses: seq<string>, accountsData: seq<KeyringAccount>)
    ensures Apply(store, Upserts(addresses, accountsData)) == store + NamesOf(addresses, accountsData)
    decreases |addresses|
  {
    if addresses != [] {
      var a0 := addresses[0];
      assert Upserts(addresses, accountsData)[1..] == Upserts(addresses[1..], accountsData);
      ApplyUpserts(store[a0 := AccountName(accountsData, a0)], addresses[1..], accountsData);
    }
  }

  /**
   * Reconciliation: a store that held exactly the previous addresses holds, after
   * the dispatched actions, exactly the snapshot's addresses with their first-match
   * names; any other entry of the store is left as it was.
   */
  lemma SynchronizeReconciles(store: map<string, Option<string>>, prevAccounts: seq<string>, accountsData: seq<KeyringAccount>)
    ensures var after := Apply(store, Synchronize(prevAccounts, accountsData));
      && (forall a :: a in after <==>
            a in Addresses(accountsData) || (a in store && a !in prevAccounts))
      && (forall a :: a in Addresses(accountsData) ==> after[a] == AccountName(accountsData, a))
      && (forall a :: a in store && a !in prevAccounts && a !in Addresses(accountsData) ==> after[a] == store[a])
  {
    var accounts := Addresses(accountsData);
    var removed := Difference(prevAccounts, accounts);
    var upserted := Union(Difference(accounts, prevAccounts), Intersection(prevAccounts, accounts));
    var after := Apply(store, Synchronize(prevAccounts, accountsData));
    var cleared := store - AddressSet(removed);
    var named := NamesOf(upserted, accountsData);
    SynchronizeApplied(store, prevAccounts, accountsData);
    assert after == cleared + named;
    forall a
      ensures a in after <==> a in accounts || (a in store && a !in prevAccounts)
      ensures a in accounts ==> after[a] == AccountName(accountsData, a)
      ensures a in store && a !in prevAccounts && a !in accounts ==> after[a] == store[a]
    {
      assert a in upserted <==> a in Difference(accounts, prevAccounts) || a in Intersection(prevAccounts, accounts);
      assert a in removed <==> a in prevAccounts && a !in accounts;
      if a in named {
        assert after[a] == named[a];
      } else if a in cleared {
        assert after[a] == cleared[a];
      }
    }
  }

  /** The store after the actions: the removed addresses deleted, then the upserted ones written. */
  lemma SynchronizeApplied(store: map<string, Option<string>>, prevAccounts: seq<string>, accountsData: seq<KeyringAccount>)
    ensures var accounts := Addresses(accountsData);
      var removed := Difference(prevAccounts, accounts);
      var upserted := Union(Difference(accounts, prevAccounts), Intersection(prevAccounts, accounts));
      Apply(store, Synchronize(prevAccounts, accountsData))
        == (store - AddressSet(removed)) + NamesOf(upserted, accountsData)
  {
    var accounts := Addresses(accountsData);
    var removed := Difference(prevAccounts, accounts);
    var upserted := Union(Difference(accounts, prevAccounts), Intersection(prevAccounts, accounts));
    var rs, us := Removals(removed), Upserts(upserted, accountsData);
    assert Synchronize(prevAccounts, accountsData) == rs + us;
    ApplyAppend(store, rs, us);
    ApplyRemovals(store, removed);
    ApplyUpserts(Apply(store, rs), upserted, accountsData);
  }
}
