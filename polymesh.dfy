/**
 * `subscribePolymesh`: on every network selection, connect, then keep the store in
 * step with the keyring's accounts and the tracked DIDs through two reconciliation
 * passes that share the subscription registry. Chain query results, the current
 * network selection and the callbacks the chain hands back are inputs here.
 */
module Polymesh {
  import opened Common
  import opened Lodash
  import opened Accounts
  import opened Claims
  import opened Identity
  import opened Registry

  /** An account's balances, as derived from its chain data by `accountBalances`. */
  datatype Balance = Balance(total: int, transferrable: int, locked: int)

  /** The account data stored per network. */
  datatype AccountData = AccountData(address: string, name: Option<string>, balance: Balance)

  /** The store actions the engine dispatches. */
  datatype Action =
    | StatusInit
    | ApiReady
    | SetFormat(ss58Format: nat)
    | SetAccount(network: string, data: AccountData)
    | SetIdentity(network: string, did: string, identity: IdentityData)
    | RemoveIdentity(network: string, did: string)
    | SetIdentityCdd(network: string, did: string, cdd: Option<CddRecord>)

  /** The store, seen through what is dispatched to it. */
  class Store {
    var actions: seq<Action>

    constructor ()
      ensures actions == []
    {
      actions := [];
    }

    method Dispatch(a: Action)
      modifies this
      ensures actions == old(actions) + [a]
    {
      actions := actions + [a];
    }
  }

  /** The fixed registry keys. */
  const AccountsKey: string := "accounts"
  const DidsKey: string := "dids"

  /** The registry key of a DID's CDD subscription: `${did}:cdd`. */
  function CddKey(did: string): string {
    did + ":cdd"
  }

  /** How a reconciliation pass ended. */
  datatype PassOutcome =
    | Stale    // the pass's network is no longer the selected one: nothing done
    | Aborted  // a cancellation callback threw and ended the pass
    | Done

  /* ---------------------------------------------------------------------------
   * The account pass's registry effect
   * ------------------------------------------------------------------------- */

  /**
   * Store each account's subscription when the chain handed one back (`Some`), in
   * order, by plain assignment without invoking what was there. Nothing is deleted,
   * and only the accounts' keys gain entries.
   */
  function StoreSubscriptions(m: map<string, Token>, accounts: seq<string>, subs: seq<Option<Token>>): (r: map<string, Token>)
    requires |accounts| == |subs|
    ensures forall k :: k in m ==> k in r
    ensures forall k :: k in r ==> k in m || k in accounts
    decreases |accounts|
  {
    if accounts == [] then m
    else
      var next := if subs[0].Some? then m[accounts[0] := subs[0].value] else m;
      StoreSubscriptions(next, accounts[1..], subs[1..])
  }

  /** Some subscription for `k` was handed back. */
  ghost predicate Issued(accounts: seq<string>, subs: seq<Option<Token>>, k: string)
    requires |accounts| == |subs|
  {
    exists i :: 0 <= i < |accounts| && accounts[i] == k && subs[i].Some?
  }

  lemma IssuedUnfold(accounts: seq<string>, subs: seq<Option<Token>>, k: string)
    requires |accounts| == |subs| && accounts != []
    ensures Issued(accounts, subs, k) <==>
      (accounts[0] == k && subs[0].Some?) || Issued(accounts[1..], subs[1..], k)
  {
    if Issued(accounts, subs, k) {
      var i :| 0 <= i < |accounts| && accounts[i] == k && subs[i].Some?;
      if i > 0 {
        assert accounts[1..][i - 1] == k && subs[1..][i - 1].Some?;
      }
    }
    if Issued(accounts[1..], subs[1..], k) {
      var i :| 0 <= i < |accounts[1..]| && accounts[1..][i] == k && subs[1..][i].Some?;
      assert accounts[i + 1] == k && subs[i + 1].Some?;
    }
  }

  /**
   * After the stores, a key is present when it was before or some subscription was
   * handed back for it; a key no account names keeps its entry; and an entry that
   * changed holds a callback handed back for that very key.
   */
  lemma {:induction false} StoreSubscriptionsSpec(m: map<string, Token>, accounts: seq<string>, subs: seq<Option<Token>>)
    requires |accounts| == |subs|
    ensures var r := StoreSubscriptions(m, accounts, subs);
      && (forall k :: k in r <==> k in m || Issued(accounts, subs, k))
      && (forall k :: k in r && k !in accounts ==> r[k] == m[k])
      && (forall k :: k in r ==> (k in m && r[k] == m[k]) || exists i :: 0 <= i < |accounts| && accounts[i] == k && subs[i] == Some(r[k]))
    decreases |accounts|
  {
    if accounts != [] {
      var next := if subs[0].Some? then m[accounts[0] := subs[0].value] else m;
      StoreSubscriptionsSpec(next, accounts[1..], subs[1..]);
      var r := StoreSubscriptions(next, accounts[1..], subs[1..]);
      forall k | k in r
        ensures (k in m && r[k] == m[k]) || exists i :: 0 <= i < |accounts| && accounts[i] == k && subs[i] == Some(r[k])
      {
        if !(k in next && r[k] == next[k]) {
          var i :| 0 <= i < |accounts[1..]| && accounts[1..][i] == k && subs[1..][i] == Some(r[k]);
          assert accounts[i + 1] == k && subs[i + 1] == Some(r[k]);
        } else if subs[0].Some? && k == accounts[0] {
          assert subs[0] == Some(r[k]);
        }
      }
      forall k
        ensures k in r <==> k in m || Issued(accounts, subs, k)
      {
        IssuedUnfold(accounts, subs, k);
      }
    }
  }

  /** A key for which no subscription is handed back keeps the entry it had. */
  lemma {:induction false} NotIssuedKeeps(m: map<string, Token>, accounts: seq<string>, subs: seq<Option<Token>>, k: string)
    requires |accounts| == |subs| && k in m
    requires forall j :: 0 <= j < |accounts| && accounts[j] == k ==> subs[j].None?
    ensures var r := StoreSubscriptions(m, accounts, subs); k in r && r[k] == m[k]
    decreases |accounts|
  {
    if accounts != [] {
      var next := if subs[0].Some? then m[accounts[0] := subs[0].value] else m;
      forall j | 0 <= j < |accounts[1..]| && accounts[1..][j] == k
        ensures subs[1..][j].None?
      {
        assert accounts[j + 1] == k;
      }
      NotIssuedKeeps(next, accounts[1..], subs[1..], k);
    }
  }

  /**
   * Stores overwrite: the last subscription handed back for an account is what the
   * registry holds under it afterwards, whatever entry it had before, and that
   * entry is dropped without being invoked.
   */
  lemma {:induction false} StoresLast(m: map<string, Token>, accounts: seq<string>, subs: seq<Option<Token>>, i: nat)
    requires |accounts| == |subs| && i < |accounts| && subs[i].Some?
    requires forall j :: i < j < |accounts| && accounts[j] == accounts[i] ==> subs[j].None?
    ensures var r := StoreSubscriptions(m, accounts, subs); accounts[i] in r && r[accounts[i]] == subs[i].value
    decreases |accounts|
  {
    var next := if subs[0].Some? then m[accounts[0] := subs[0].value] else m;
    if i == 0 {
      forall j | 0 <= j < |accounts[1..]| && accounts[1..][j] == accounts[0]
        ensures subs[1..][j].None?
      {
        assert accounts[j + 1] == accounts[0];
      }
      NotIssuedKeeps(next, accounts[1..], subs[1..], accounts[0]);
    } else {
      assert accounts[1..][i - 1] == accounts[i] && subs[1..][i - 1] == subs[i];
      forall j | i - 1 < j < |accounts[1..]| && accounts[1..][j] == accounts[1..][i - 1]
        ensures subs[1..][j].None?
      {
        assert accounts[j + 1] == accounts[i];
      }
      StoresLast(next, accounts[1..], subs[1..], i - 1);
    }
  }

  /**
   * A completed account pass leaves no callback of a previous account behind: before
   * any new subscription is stored, no previous account is in the registry and every
   * previous account's entry was invoked exactly once; if the registry holds the
   * account afterwards, it holds a subscription issued by this pass.
   */
  lemma AccountPassReplacesPrevious(m: map<string, Token>, prevAccounts: seq<string>, accounts: seq<string>, subs: seq<Option<Token>>)
    requires |accounts| == |subs|
    requires CancelKeys(m, prevAccounts).completed
    ensures var sweep := CancelKeys(m, prevAccounts);
      var r := StoreSubscriptions(sweep.remaining, accounts, subs);
      && InvokedOnce(sweep.cancelled, m)
      && (forall a :: a in prevAccounts ==> a !in sweep.remaining)
      && (forall a :: a in prevAccounts && a in m ==> InvokedKey(sweep.cancelled, a))
      && (forall a :: a in prevAccounts && a in r ==> exists i :: 0 <= i < |accounts| && accounts[i] == a && subs[i] == Some(r[a]))
      && (forall k :: k in m && k !in prevAccounts && k !in accounts ==> k in r && r[k] == m[k])
  {
    var sweep := CancelKeys(m, prevAccounts);
    CancelKeysInvokesOnce(m, prevAccounts);
    CancelKeysCompletes(m, prevAccounts);
    CancelKeysClears(m, prevAccounts);
    StoreSubscriptionsSpec(sweep.remaining, accounts, subs);
  }

  /* ---------------------------------------------------------------------------
   * The DID pass's teardown and CDD dispatches
   * ------------------------------------------------------------------------- */

  /** Cancel-and-delete a DID's entry, then its CDD entry. */
  function CancelDid(m: map<string, Token>, d: string): Sweep {
    CancelKeys(m, [d, CddKey(d)])
  }

  /** What tearing down the removed DIDs leaves behind. */
  datatype Teardown = Teardown(remaining: map<string, Token>, cancelled: seq<Cancellation>, dispatched: seq<Action>, completed: bool)

  /**
   * For each removed DID in turn: dispatch its removal, then cancel-and-delete its
   * entry and its CDD entry. A throwing callback ends the teardown.
   */
  function TeardownDids(network: string, m: map<string, Token>, removed: seq<string>): (r: Teardown)
    ensures |r.dispatched| <= |removed| && (r.completed ==> |r.dispatched| == |removed|)
    decreases |removed|
  {
    if removed == [] then Teardown(m, [], [], true)
    else
      var d := removed[0];
      var s := CancelDid(m, d);
      if !s.completed then Teardown(s.remaining, s.cancelled, [RemoveIdentity(network, d)], false)
      else
        var rest := TeardownDids(network, s.remaining, removed[1..]);
        Teardown(rest.remaining, s.cancelled + rest.cancelled, [RemoveIdentity(network, d)] + rest.dispatched, rest.completed)
  }

  /**
   * The teardown loop's invariant: the whole teardown is what was done so far
   * followed by the teardown of the DIDs still to go from the current registry.
   */
  ghost predicate TeardownTail(network: string, m: map<string, Token>, rest: seq<string>,
                               doneCancelled: seq<Cancellation>, doneDispatched: seq<Action>, whole: Teardown) {
    var t := TeardownDids(network, m, rest);
    && whole.remaining == t.remaining && whole.completed == t.completed
    && whole.cancelled == doneCancelled + t.cancelled && whole.dispatched == doneDispatched + t.dispatched
  }

  /** One step of the teardown loop: tearing down the first DID still to go. */
  lemma TeardownStep(network: string, m: map<string, Token>, rest: seq<string>,
                     doneCancelled: seq<Cancellation>, doneDispatched: seq<Action>, whole: Teardown)
    requires rest != []
    requires TeardownTail(network, m, rest, doneCancelled, doneDispatched, whole)
    ensures var s := CancelDid(m, rest[0]);
      && (!s.completed ==>
            && whole.remaining == s.remaining && !whole.completed
            && whole.cancelled == doneCancelled + s.cancelled
            && whole.dispatched == doneDispatched + [RemoveIdentity(network, rest[0])])
      && (s.completed ==>
            TeardownTail(network, s.remaining, rest[1..], doneCancelled + s.cancelled,
                         doneDispatched + [RemoveIdentity(network, rest[0])], whole))
  {
    var d := rest[0];
    var s := CancelDid(m, d);
    if s.completed {
      var t := TeardownDids(network, s.remaining, rest[1..]);
      assert doneCancelled + (s.cancelled + t.cancelled) == (doneCancelled + s.cancelled) + t.cancelled;
      assert doneDispatched + ([RemoveIdentity(network, d)] + t.dispatched)
        == (doneDispatched + [RemoveIdentity(network, d)]) + t.dispatched;
    }
  }

  /** One `removeIdentity` per element, in order. */
  function RemoveIdentities(network: string, dids: seq<string>): seq<Action> {
    seq(|dids|, i requires 0 <= i < |dids| => RemoveIdentity(network, dids[i]))
  }

  /** The registry keys a DID's teardown deletes: the DID and its CDD key. */
  function TeardownKeys(removed: seq<string>): set<string> {
    (set d | d in removed) + (set d | d in removed :: CddKey(d))
  }

  /** A DID's two-key sweep that completed deleted exactly its two entries. */
  lemma CancelPairClears(m: map<string, Token>, d: string)
    requires CancelDid(m, d).completed
    ensures CancelDid(m, d).remaining == m - {d, CddKey(d)}
  {
    CancelKeysClears(m, [d, CddKey(d)]);
    assert (set k | k in [d, CddKey(d)]) == {d, CddKey(d)};
  }

  /**
   * A completed teardown dispatched one removal per removed DID, in order, and
   * deleted exactly their entries and CDD entries; every other entry is unchanged.
   */
  lemma {:induction false} TeardownDidsCompleted(network: string, m: map<string, Token>, removed: seq<string>)
    requires TeardownDids(network, m, removed).completed
    ensures var t := TeardownDids(network, m, removed);
      && t.dispatched == RemoveIdentities(network, removed)
      && t.remaining == m - TeardownKeys(removed)
    decreases |removed|
  {
    if removed != [] {
      var d := removed[0];
      var s := CancelDid(m, d);
      TeardownDidsCompleted(network, s.remaining, removed[1..]);
      CancelPairClears(m, d);
      assert RemoveIdentities(network, removed) == [RemoveIdentity(network, d)] + RemoveIdentities(network, removed[1..]);
      assert TeardownKeys(removed) == {d, CddKey(d)} + TeardownKeys(removed[1..]) by {
        assert removed == [d] + removed[1..];
      }
    }
  }

  /** A teardown that stopped early dispatched the removals of a nonempty prefix of the removed DIDs. */
  lemma {:induction false} TeardownDidsStopped(network: string, m: map<string, Token>, removed: seq<string>)
    requires !TeardownDids(network, m, removed).completed
    ensures var t := TeardownDids(network, m, removed);
      0 < |t.dispatched| <= |removed| && t.dispatched == RemoveIdentities(network, removed[..|t.dispatched|])
    decreases |removed|
  {
    var d := removed[0];
    var s := CancelDid(m, d);
    if !s.completed {
      assert RemoveIdentities(network, removed[..1]) == [RemoveIdentity(network, d)];
    } else {
      TeardownDidsStopped(network, s.remaining, removed[1..]);
      var rest := TeardownDids(network, s.remaining, removed[1..]);
      var n := |rest.dispatched|;
      assert removed[..n + 1] == [d] + removed[1..][..n];
      assert RemoveIdentities(network, removed[..n + 1])
        == [RemoveIdentity(network, d)] + RemoveIdentities(network, removed[1..][..n]);
    }
  }

  /**
   * The teardown of a completed DID pass: it dispatches `removeIdentity` only for
   * DIDs that left the list, as often as they occur in the previous list (so once
   * each when that list is duplicate-free); afterwards neither such a DID nor its
   * CDD key is in the registry, and every unrelated entry is unchanged.
   */
  lemma DidPassTeardown(network: string, m: map<string, Token>, prevDids: seq<string>, dids: seq<string>)
    requires TeardownDids(network, m, Difference(prevDids, dids)).completed
    ensures var t := TeardownDids(network, m, Difference(prevDids, dids));
      && (forall a :: a in t.dispatched ==> a.RemoveIdentity? && a.network == network && a.did in prevDids && a.did !in dids)
      && (forall d :: multiset(t.dispatched)[RemoveIdentity(network, d)] == if d in dids then 0 else multiset(prevDids)[d])
      && (NoDup(prevDids) ==> forall d :: d in prevDids && d !in dids ==> multiset(t.dispatched)[RemoveIdentity(network, d)] == 1)
      && (forall d :: d in prevDids && d !in dids ==> d !in t.remaining && CddKey(d) !in t.remaining)
      && (forall k :: k in m && k !in TeardownKeys(Difference(prevDids, dids)) ==> k in t.remaining && t.remaining[k] == m[k])
  {
    var removed := Difference(prevDids, dids);
    var t := TeardownDids(network, m, removed);
    TeardownDidsCompleted(network, m, removed);
    forall a | a in t.dispatched
      ensures a.RemoveIdentity? && a.network == network && a.did in prevDids && a.did !in dids
    {
      var i :| 0 <= i < |t.dispatched| && t.dispatched[i] == a;
      assert removed[i] in removed;
    }
    forall d
      ensures multiset(t.dispatched)[RemoveIdentity(network, d)] == if d in dids then 0 else multiset(prevDids)[d]
    {
      RemoveIdentitiesCount(network, removed, d);
    }
    if NoDup(prevDids) {
      forall d | d in prevDids && d !in dids
        ensures multiset(t.dispatched)[RemoveIdentity(network, d)] == 1
      {
        RemoveIdentitiesCount(network, removed, d);
        NoDupOccursOnce(prevDids, d);
      }
    }
  }

  /** With a duplicate-free previous list, each DID that left it is removed exactly once. */
  lemma {:induction false} RemoveIdentitiesCount(network: string, dids: seq<string>, d: string)
    ensures multiset(RemoveIdentities(network, dids))[RemoveIdentity(network, d)] == multiset(dids)[d]
  {
    if dids != [] {
      RemoveIdentitiesCount(network, dids[1..], d);
      assert dids == [dids[0]] + dids[1..];
      assert RemoveIdentities(network, dids) == [RemoveIdentity(network, dids[0])] + RemoveIdentities(network, dids[1..]);
    }
  }

  /** What each DID's claim query turns into, in the order of the DIDs; see CddUpdate. */
  function CddUpdates(results: seq<seq<Claim>>, activeIssuers: seq<string>): (r: seq<Option<Option<CddRecord>>>)
    ensures |r| == |results|
    ensures forall i :: 0 <= i < |results| ==> r[i] == CddUpdate(results[i], activeIssuers)
  {
    seq(|results|, i requires 0 <= i < |results| => CddUpdate(results[i], activeIssuers))
  }

  /**
   * The `setIdentityCdd` dispatches once all claim queries have resolved, given what
   * each DID's query turned into: one per DID with an update, in the order of the DIDs.
   */
  function CddDispatches(network: string, dids: seq<string>, updates: seq<Option<Option<CddRecord>>>): (r: seq<Action>)
    requires |updates| == |dids|
    ensures |r| <= |dids|
    ensures forall a :: a in r ==> a.SetIdentityCdd? && a.network == network && a.did in dids
    decreases |dids|
  {
    if dids == [] then []
    else
      var head := if updates[0].Some? then [SetIdentityCdd(network, dids[0], updates[0].value)] else [];
      head + CddDispatches(network, dids[1..], updates[1..])
  }

  /** One step of the dispatch loop: the dispatches so far grow by the j-th DID's. */
  lemma CddDispatchesStep(network: string, dids: seq<string>, updates: seq<Option<Option<CddRecord>>>, done: seq<Action>, j: nat)
    requires |updates| == |dids| && j < |dids|
    requires done + CddDispatches(network, dids[j..], updates[j..]) == CddDispatches(network, dids, updates)
    ensures var head := if updates[j].Some? then [SetIdentityCdd(network, dids[j], updates[j].value)] else [];
      (done + head) + CddDispatches(network, dids[j + 1..], updates[j + 1..]) == CddDispatches(network, dids, updates)
  {
    assert dids[j..][1..] == dids[j + 1..] && updates[j..][1..] == updates[j + 1..];
    var head := if updates[j].Some? then [SetIdentityCdd(network, dids[j], updates[j].value)] else [];
    var rest := CddDispatches(network, dids[j + 1..], updates[j + 1..]);
    assert CddDispatches(network, dids[j..], updates[j..]) == head + rest;
    assert done + (head + rest) == (done + head) + rest;
  }

  /** Every DID with an update gets its dispatch. */
  lemma {:induction false} CddDispatchesComplete(network: string, dids: seq<string>, updates: seq<Option<Option<CddRecord>>>, i: nat)
    requires |updates| == |dids| && i < |dids|
    requires updates[i].Some?
    ensures SetIdentityCdd(network, dids[i], updates[i].value) in CddDispatches(network, dids, updates)
    decreases |dids|
  {
    if i > 0 {
      assert dids[1..][i - 1] == dids[i] && updates[1..][i - 1] == updates[i];
      CddDispatchesComplete(network, dids[1..], updates[1..], i - 1);
    }
  }

  /** Every dispatch is the `setIdentityCdd` of one DID with an update. */
  lemma {:induction false} CddDispatchesSound(network: string, dids: seq<string>, updates: seq<Option<Option<CddRecord>>>, a: Action)
    requires |updates| == |dids|
    requires a in CddDispatches(network, dids, updates)
    ensures exists i :: 0 <= i < |dids| && updates[i].Some? && a == SetIdentityCdd(network, dids[i], updates[i].value)
    decreases |dids|
  {
    var head := if updates[0].Some? then [SetIdentityCdd(network, dids[0], updates[0].value)] else [];
    var rest := CddDispatches(network, dids[1..], updates[1..]);
    if a in head {
      assert a == SetIdentityCdd(network, dids[0], updates[0].value);
    } else {
      assert a in rest;
      CddDispatchesSound(network, dids[1..], updates[1..], a);
      var i :| 0 <= i < |dids[1..]| && updates[1..][i].Some? && a == SetIdentityCdd(network, dids[1..][i], updates[1..][i].value);
      assert dids[i + 1] == dids[1..][i] && updates[i + 1] == updates[1..][i];
    }
  }

  /**
   * Every dispatch is for a tracked DID, and every record dispatched is a maximal
   * claim among that DID's claims from active issuers.
   */
  lemma CddGateSound(network: string, dids: seq<string>, results: seq<seq<Claim>>, activeIssuers: seq<string>, a: Action)
    requires |results| == |dids|
    requires a in CddDispatches(network, dids, CddUpdates(results, activeIssuers))
    ensures a.SetIdentityCdd? && a.network == network && a.did in dids
    ensures a.SetIdentityCdd? && a.cdd.Some? ==>
      exists i :: 0 <= i < |dids| && dids[i] == a.did && MaximalActiveRecord(results[i], activeIssuers, a.cdd.value)
  {
    var updates := CddUpdates(results, activeIssuers);
    CddDispatchesSound(network, dids, updates, a);
    var i :| 0 <= i < |dids| && updates[i].Some? && a == SetIdentityCdd(network, dids[i], updates[i].value);
    assert updates[i] == CddUpdate(results[i], activeIssuers);
  }

  /** A DID whose query returned entries, none from an active issuer, gets `setIdentityCdd` with `cdd` undefined. */
  lemma CddGateUndefined(network: string, dids: seq<string>, results: seq<seq<Claim>>, activeIssuers: seq<string>, i: nat)
    requires |results| == |dids| && i < |dids|
    requires results[i] != [] && forall c :: c in results[i] ==> c.issuer !in activeIssuers
    ensures SetIdentityCdd(network, dids[i], None) in CddDispatches(network, dids, CddUpdates(results, activeIssuers))
  {
    var updates := CddUpdates(results, activeIssuers);
    assert updates[i] == Some(None);
    CddDispatchesComplete(network, dids, updates, i);
  }

  /** A DID whose every query returned no entries gets no `setIdentityCdd` at all. */
  lemma CddGateSilent(network: string, dids: seq<string>, results: seq<seq<Claim>>, activeIssuers: seq<string>, d: string, cdd: Option<CddRecord>)
    requires |results| == |dids|
    requires forall i :: 0 <= i < |dids| && dids[i] == d ==> results[i] == []
    ensures SetIdentityCdd(network, d, cdd) !in CddDispatches(network, dids, CddUpdates(results, activeIssuers))
  {
    var updates := CddUpdates(results, activeIssuers);
    if SetIdentityCdd(network, d, cdd) in CddDispatches(network, dids, updates) {
      CddDispatchesSound(network, dids, updates, SetIdentityCdd(network, d, cdd));
    }
  }

  /**
   * The dispatch gate, for all DIDs at once: a DID whose every query returned no
   * entries gets no `setIdentityCdd`; a DID whose query returned entries, none from
   * an active issuer, gets one with `cdd` undefined; every dispatch is for a tracked
   * DID; and every record dispatched is a maximal claim among that DID's claims
   * from active issuers: no expiry if one of them has none, otherwise the latest.
   */
  lemma CddGate(network: string, dids: seq<string>, results: seq<seq<Claim>>, activeIssuers: seq<string>)
    requires |results| == |dids|
    ensures var out := CddDispatches(network, dids, CddUpdates(results, activeIssuers));
      && (forall d, cdd :: (forall i :: 0 <= i < |dids| && dids[i] == d ==> results[i] == []) ==>
            SetIdentityCdd(network, d, cdd) !in out)
      && (forall i :: 0 <= i < |dids| && results[i] != [] && (forall c :: c in results[i] ==> c.issuer !in activeIssuers) ==>
            SetIdentityCdd(network, dids[i], None) in out)
      && (forall a :: a in out ==> a.SetIdentityCdd? && a.network == network && a.did in dids)
      && (forall a :: a in out && a.SetIdentityCdd? && a.cdd.Some? ==>
            exists i :: 0 <= i < |dids| && dids[i] == a.did && MaximalActiveRecord(results[i], activeIssuers, a.cdd.value))
  {
    var out := CddDispatches(network, dids, CddUpdates(results, activeIssuers));
    forall a | a in out
      ensures a.SetIdentityCdd? && a.network == network && a.did in dids
      ensures a.SetIdentityCdd? && a.cdd.Some? ==>
        exists i :: 0 <= i < |dids| && dids[i] == a.did && MaximalActiveRecord(results[i], activeIssuers, a.cdd.value)
    {
      CddGateSound(network, dids, results, activeIssuers, a);
    }
    forall i | 0 <= i < |dids| && results[i] != [] && (forall c :: c in results[i] ==> c.issuer !in activeIssuers)
      ensures SetIdentityCdd(network, dids[i], None) in out
    {
      CddGateUndefined(network, dids, results, activeIssuers, i);
    }
    forall d, cdd | (forall i :: 0 <= i < |dids| && dids[i] == d ==> results[i] == [])
      ensures SetIdentityCdd(network, d, cdd) !in out
    {
      CddGateSilent(network, dids, results, activeIssuers, d, cdd);
    }
  }

  /* ---------------------------------------------------------------------------
   * The per-account subscription callback
   * ------------------------------------------------------------------------- */

  /**
   * What one `queryMulti` callback for `account` dispatches: its data under the
   * session's network, named from the pass's keyring snapshot; then, when the
   * account is linked to an identity (`linked`) whose record loaded (`record`),
   * that identity's data.
   */
  function AccountUpdate(network: string, accountsData: seq<KeyringAccount>, account: string, balance: Balance,
                         linked: Option<string>, record: Option<DidRecord>, encode: AccountId -> string): (r: seq<Action>)
    ensures 1 <= |r| <= 2
    ensures r[0] == SetAccount(network, AccountData(account, AccountName(accountsData, account), balance))
    ensures |r| == 2 <==> linked.Some? && record.Some?
    ensures |r| == 2 ==>
      && r[1].SetIdentity? && r[1].network == network && r[1].did == linked.value
      && r[1].identity.did == linked.value
      && r[1].identity.priKey == encode(record.value.primaryKey)
      && r[1].identity.secKeys == EncodeAll(encode, AccountSigners(record.value.secondaryKeys))
  {
    var setAccount := SetAccount(network, AccountData(account, AccountName(accountsData, account), balance));
    if linked.None? || record.None? then [setAccount]
    else [setAccount, SetIdentity(network, linked.value, DidRecordData(linked.value, record.value, encode))]
  }

  /* ---------------------------------------------------------------------------
   * The session: one network connection and its generation variables
   * ------------------------------------------------------------------------- */

  class Session {
    /** The network this session was opened for (captured by every callback). */
    const network: string
    const registry: Registry
    const store: Store
    var prevAccounts: seq<string>
    var prevDids: seq<string>
    var activeIssuers: seq<string>

    constructor (network: string, registry: Registry, store: Store)
      ensures this.network == network && this.registry == registry && this.store == store
      ensures prevAccounts == [] && prevDids == [] && activeIssuers == []
    {
      this.network := network;
      this.registry := registry;
      this.store := store;
      prevAccounts := [];
      prevDids := [];
      activeIssuers := [];
    }

    /**
     * Once the active CDD issuers are known (`members`, or None when the query
     * failed): remember them, then replace the `accounts` and `dids` subscriptions.
     * A throwing previous callback ends the start there.
     */
    method Start(members: Option<seq<string>>, accountsSub: Token, didsSub: Token) returns (completed: bool)
      modifies this`activeIssuers, registry
      ensures members.None? ==>
        && !completed && activeIssuers == old(activeIssuers)
        && registry.callbacks == old(registry.callbacks) && registry.cancelled == old(registry.cancelled)
      ensures members.Some? ==>
        var first := ReplaceKey(old(registry.callbacks), AccountsKey, accountsSub);
        var second := ReplaceKey(first.remaining, DidsKey, didsSub);
        && activeIssuers == members.value
        && completed == (first.completed && second.completed)
        && registry.callbacks == (if first.completed then second.remaining else first.remaining)
        && registry.cancelled == old(registry.cancelled) + first.cancelled + (if first.completed then second.cancelled else [])
    {
      if members.None? {
        return false;
      }
      activeIssuers := members.value;
      completed := registry.Replace(AccountsKey, accountsSub);
      if !completed {
        return;
      }
      completed := registry.Replace(DidsKey, didsSub);
    }

    /**
     * The account pass for one keyring emission. `subs[i]` is the callback the chain
     * hands back for the subscription issued for the i-th account (None when issuing
     * it failed); `selected` is the network selected when the emission arrives.
     */
    method AccountsPass(selected: string, accountsData: seq<KeyringAccount>, subs: seq<Option<Token>>) returns (outcome: PassOutcome)
      requires |subs| == |accountsData|
      modifies this`prevAccounts, registry
      ensures selected != network ==>
        && outcome == Stale && prevAccounts == old(prevAccounts)
        && registry.callbacks == old(registry.callbacks) && registry.cancelled == old(registry.cancelled)
      ensures selected == network ==>
        var sweep := CancelKeys(old(registry.callbacks), old(prevAccounts));
        && registry.cancelled == old(registry.cancelled) + sweep.cancelled
        && (sweep.completed ==>
              && outcome == Done
              && registry.callbacks == StoreSubscriptions(sweep.remaining, Addresses(accountsData), subs)
              && prevAccounts == Addresses(accountsData))
        && (!sweep.completed ==>
              && outcome == Aborted
              && registry.callbacks == sweep.remaining
              && prevAccounts == old(prevAccounts))
    {
      if selected != network {
        return Stale;
      }
      var accounts := Addresses(accountsData);
      ghost var sweep := CancelKeys(registry.callbacks, prevAccounts);
      var completed := registry.CancelEach(prevAccounts);
      if !completed {
        return Aborted;
      }
      var i := 0;
      while i < |accounts|
        invariant 0 <= i <= |accounts|
        invariant registry.cancelled == old(registry.cancelled) + sweep.cancelled
        invariant StoreSubscriptions(registry.callbacks, accounts[i..], subs[i..])
          == StoreSubscriptions(sweep.remaining, accounts, subs)
      {
        assert accounts[i..][1..] == accounts[i + 1..] && subs[i..][1..] == subs[i + 1..];
        if subs[i].Some? {
          registry.Assign(accounts[i], subs[i].value);
        }
        i := i + 1;
      }
      prevAccounts := accounts;
      return Done;
    }

    /** The subscription callback for one account of a pass over `accountsData`. */
    method OnAccountData(accountsData: seq<KeyringAccount>, account: string, balance: Balance,
                         linked: Option<string>, record: Option<DidRecord>, encode: AccountId -> string)
      modifies store
      ensures store.actions == old(store.actions) + AccountUpdate(network, accountsData, account, balance, linked, record, encode)
    {
      store.Dispatch(SetAccount(network, AccountData(account, AccountName(accountsData, account), balance)));
      if linked.Some? && record.Some? {
        store.Dispatch(SetIdentity(network, linked.value, DidRecordData(linked.value, record.value, encode)));
      }
    }

    /** Tear down one removed DID: dispatch its removal, then cancel-and-delete its two entries. */
    method TeardownOne(did: string) returns (completed: bool)
      modifies registry, store
      ensures var s := CancelDid(old(registry.callbacks), did);
        && registry.callbacks == s.remaining
        && registry.cancelled == old(registry.cancelled) + s.cancelled
        && completed == s.completed
      ensures store.actions == old(store.actions) + [RemoveIdentity(network, did)]
    {
      store.Dispatch(RemoveIdentity(network, did));
      completed := registry.CancelEach([did, CddKey(did)]);
    }

    /** Tear down the removed DIDs one after the other; see TeardownDids. */
    method TeardownRemoved(removedDids: seq<string>) returns (completed: bool)
      modifies registry, store
      ensures var t := TeardownDids(network, old(registry.callbacks), removedDids);
        && registry.callbacks == t.remaining
        && registry.cancelled == old(registry.cancelled) + t.cancelled
        && store.actions == old(store.actions) + t.dispatched
        && completed == t.completed
    {
      ghost var whole := TeardownDids(network, registry.callbacks, removedDids);
      ghost var doneCancelled: seq<Cancellation> := [];
      ghost var doneDispatched: seq<Action> := [];
      var i := 0;
      while i < |removedDids|
        invariant 0 <= i <= |removedDids|
        invariant registry.cancelled == old(registry.cancelled) + doneCancelled
        invariant store.actions == old(store.actions) + doneDispatched
        invariant TeardownTail(network, registry.callbacks, removedDids[i..], doneCancelled, doneDispatched, whole)
      {
        var did := removedDids[i];
        ghost var s := CancelDid(registry.callbacks, did);
        TeardownStep(network, registry.callbacks, removedDids[i..], doneCancelled, doneDispatched, whole);
        assert removedDids[i..][0] == did && removedDids[i..][1..] == removedDids[i + 1..];
        completed := TeardownOne(did);
        if !completed {
          return;
        }
        doneCancelled := doneCancelled + s.cancelled;
        doneDispatched := doneDispatched + [RemoveIdentity(network, did)];
        i := i + 1;
      }
      assert removedDids[i..] == [];
      assert doneCancelled + [] == doneCancelled && doneDispatched + [] == doneDispatched;
      return true;
    }

    /** Dispatch, in order, the CDD update of every DID that has one (see CddUpdate). */
    method DispatchCdds(dids: seq<string>, updates: seq<Option<Option<CddRecord>>>)
      requires |updates| == |dids|
      modifies store
      ensures store.actions == old(store.actions) + CddDispatches(network, dids, updates)
    {
      ghost var done: seq<Action> := [];
      var j := 0;
      assert dids[j..] == dids && updates[j..] == updates;
      while j < |dids|
        invariant 0 <= j <= |dids|
        invariant store.actions == old(store.actions) + done
        invariant done + CddDispatches(network, dids[j..], updates[j..]) == CddDispatches(network, dids, updates)
      {
        var cdd := updates[j];
        ghost var head := if cdd.Some? then [SetIdentityCdd(network, dids[j], cdd.value)] else [];
        CddDispatchesStep(network, dids, updates, done, j);
        if cdd.Some? {
          store.Dispatch(SetIdentityCdd(network, dids[j], cdd.value));
        }
        done := done + head;
        j := j + 1;
      }
      assert dids[j..] == [];
    }

    /**
     * The DID pass for one emission of the DID list. `claimResults` holds each DID's
     * CDD claim entries (None when a claim query failed, which drops them all).
     */
    method DidsPass(selected: string, dids: seq<string>, claimResults: Option<seq<seq<Claim>>>) returns (outcome: PassOutcome)
      requires claimResults.Some? ==> |claimResults.value| == |dids|
      modifies this`prevDids, registry, store
      ensures selected != network ==>
        && outcome == Stale && prevDids == old(prevDids) && store.actions == old(store.actions)
        && registry.callbacks == old(registry.callbacks) && registry.cancelled == old(registry.cancelled)
      ensures selected == network ==>
        var t := TeardownDids(network, old(registry.callbacks), Difference(old(prevDids), dids));
        && registry.callbacks == t.remaining
        && registry.cancelled == old(registry.cancelled) + t.cancelled
        && (t.completed ==>
              && outcome == Done
              && prevDids == dids
              && store.actions == old(store.actions) + t.dispatched
                   + (if claimResults.Some? then CddDispatches(network, dids, CddUpdates(claimResults.value, activeIssuers)) else []))
        && (!t.completed ==>
              && outcome == Aborted
              && prevDids == old(prevDids)
              && store.actions == old(store.actions) + t.dispatched)
    {
      if selected != network {
        return Stale;
      }
      var removedDids := Difference(prevDids, dids);
      var completed := TeardownRemoved(removedDids);
      if !completed {
        return Aborted;
      }
      if claimResults.Some? {
        DispatchCdds(dids, CddUpdates(claimResults.value, activeIssuers));
      }
      prevDids := dids;
      return Done;
    }
  }

  /** The fixed registry key of the selected-network subscription. */
  const NetworkKey: string := "network"

  /**
   * `subscribePolymesh` up to its network subscription: the `network` callback of a
   * previous call is invoked if there is one, then `networkSub` is stored over it. If
   * that callback throws, the call ends there and nothing is stored.
   */
  method SubscribePolymesh(registry: Registry, networkSub: Token) returns (completed: bool)
    modifies registry
    ensures completed <==> NetworkKey !in old(registry.callbacks) || !CancelThrows(old(registry.callbacks)[NetworkKey])
    ensures registry.callbacks == if completed then old(registry.callbacks)[NetworkKey := networkSub] else old(registry.callbacks)
    ensures registry.cancelled == old(registry.cancelled)
      + if NetworkKey in old(registry.callbacks) then [Cancellation(NetworkKey, old(registry.callbacks)[NetworkKey])] else []
  {
    completed := registry.Replace(NetworkKey, networkSub);
  }

  /**
   * The selected-network callback up to the session's creation. An absent or empty
   * selection does nothing. Otherwise `init` is dispatched; `connection` is the
   * chain's address format once connected, or None when connecting failed. On
   * success `apiReady` and the format follow and a fresh session starts with empty
   * generation variables.
   */
  method OnSelectedNetwork(registry: Registry, store: Store, selection: Option<string>, connection: Option<nat>)
    returns (session: Option<Session>)
    modifies store
    ensures selection.None? || selection == Some("") ==> session.None? && store.actions == old(store.actions)
    ensures selection.Some? && selection != Some("") && connection.None? ==>
      session.None? && store.actions == old(store.actions) + [StatusInit]
    ensures selection.Some? && selection != Some("") && connection.Some? ==>
      && store.actions == old(store.actions) + [StatusInit, ApiReady, SetFormat(connection.value)]
      && session.Some? && fresh(session.value)
      && session.value.network == selection.value
      && session.value.registry == registry && session.value.store == store
      && session.value.prevAccounts == [] && session.value.prevDids == [] && session.value.activeIssuers == []
  {
    if selection.None? || selection.value == "" {
      return None;
    }
    store.Dispatch(StatusInit);
    if connection.None? {
      return None;
    }
    store.Dispatch(ApiReady);
    store.Dispatch(SetFormat(connection.value));
    var s := new Session(selection.value, registry, store);
    return Some(s);
  }
}
