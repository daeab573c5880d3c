# polymesh-wallet reconciliation core, in Dafny

This project models the subscription-diff reconciliation engine of the Polymesh
wallet extension, `packages/core/src/index.ts`. The engine keeps the redux store in
step with two things: the keyring's accounts, and the identities (DIDs) those
accounts are linked to on chain.

- **`accountsSynchronizer`** diffs the addresses the store knows against each
  keyring snapshot. It dispatches one `removeAccountGlobally` per vanished address,
  then one `setAccountGlobally` per distinct snapshot address. Module `Accounts`,
  built on the lodash `difference`/`intersection`/`union` modelled in `Lodash`.
- **`subscribePolymesh`** runs once per call (`Polymesh.SubscribePolymesh`). It
  invokes the `network` callback left by a previous call, then subscribes to the
  network selection. The selection callback (`Polymesh.OnSelectedNetwork`) runs on
  every selection: it connects and starts a fresh session for that network. From
  the previous network it cancels only the `accounts` and `dids` subscriptions, and
  only once the active issuers have loaded (lines 202 and 208). All of these
  share the module-level registry `unsubCallbacks`, which maps a key to the
  callback that cancels the subscription stored there. The model is the class
  `Registry.Registry`, with a ghost log of every callback invocation.
- **The account pass** (`Polymesh.Session.AccountsPass`) runs per keyring emission.
  It cancels the subscriptions of the previous account list, then stores the ones
  issued for the new list.
- **The DID pass** (`Polymesh.Session.DidsPass`) runs per DID-list emission. It
  tears down removed DIDs, then queries every DID's CDD claims. Once all queries
  have resolved, each DID whose query returned entries gets one `setIdentityCdd`.
  If any query fails, no DID gets one in that pass.
- **CDD record choice** (module `Claims`): claims are filtered to the active CDD
  issuers, sorted "never expires first, otherwise last to expire first" by
  `claimSorter`, and the head becomes the record.
- **`_didRecord`** (module `Identity`) shapes an identity's keys. Only account-type
  secondary signers are kept, in order, each encoded as an address.

Everything the engine receives from outside is an input of the model:
- chain query results (claim lists, DID records, account balances, the address format);
- the cancellation callbacks the chain hands back;
- the current network selection;
- `encodeAddress`, as an uninterpreted function.

A callback is a `Token` whose `throws` flag says whether invoking it raises. Dispatch
appends to the action log of `Polymesh.Store`.

Behaviour of the code that the model keeps, because it is easy to overlook:
- **Cancellation errors.** `unsubAll` (lines 104-109) catches a throwing callback
  and keeps its entry. A throw from the previous `accounts` or `dids` callback
  (lines 202 and 208) rejects the promise of line 139. The `.catch` at line 256
  catches it, and the start of the session ends there (`Session.Start` returns
  false). The cancellations at lines 116, 159, 220 and 225 are caught nowhere in
  this file. A throw at 159, 220 or 225 ends the pass (`Aborted`), and
  `prevAccounts`/`prevDids` are not updated.
- **Staleness guard.** The selected network is checked once, at the start of each
  pass (lines 148 and 212). Neither the `queryMulti` callback (171-193) nor the
  CDD dispatch (246) checks it again.
- **Failed claim fetches.** All claim queries are joined with `Promise.all` (233).
  One failed query drops every DID's CDD dispatch for that pass. The model's
  `claimResults` is `None` in that case.
- **DIDs whose claims were all filtered out.** A nonempty claim list maps to its
  filtered list. An empty filtered list `[]` is truthy (243), so `setIdentityCdd`
  is dispatched with `cdd` undefined. Only a query that returned no entries at all
  gets no dispatch.
- **Network switch.** A fresh session starts with `prevAccounts` empty (line 135),
  so its first account pass sweeps nothing (157-162). It then stores its own
  per-account subscriptions over the old network's by plain assignment (195),
  without invoking them. Those old subscriptions are never cancelled.
- **DID sweeps.** Nothing in this file stores an entry under a DID or `<did>:cdd`
  key (the only stores are at lines 118, 195, 203 and 211). The sweeps at 219-227
  therefore find nothing at run time. The model keeps them as written.

## Model

| member | source | states |
|---|---|---|
| Lodash.Difference | packages/core/src/index.ts:35-36 | `difference(a, b)` holds exactly the elements of `a` not in `b`, each as often as it occurs in `a`; never longer than `a` |
| Lodash.Retain | packages/core/src/index.ts:37 | holds exactly the elements of `a` that occur in `b` |
| Lodash.Uniq | packages/core/src/index.ts:45 | duplicate-free, with the same elements as its input |
| Lodash.Intersection | packages/core/src/index.ts:37 | `intersection(a, b)` is duplicate-free and holds exactly the elements common to both |
| Lodash.Union | packages/core/src/index.ts:45 | `union(a, b)` is duplicate-free and holds exactly the elements of either |
| Accounts.AccountName | packages/core/src/index.ts:28-30 | an address absent from the snapshot has no name |
| Accounts.Addresses | packages/core/src/index.ts:34 | one address per keyring entry, and an address occurs exactly when some entry carries it |
| Accounts.AccountNameIsFirstMatch | packages/core/src/index.ts:28-30 | the name found is that of the first snapshot entry with the address |
| Accounts.SynchronizeRemovesFirst | packages/core/src/index.ts:39-52 | every removal is dispatched before any upsert |
| Accounts.Synchronize | packages/core/src/index.ts:27-53 | every removal dispatched is of a previous address missing from the snapshot; every upsert is of a snapshot address and carries that address's first-match name |
| Accounts.SynchronizeRemovesVanished | packages/core/src/index.ts:36-42 | the removed addresses are exactly the previous addresses missing from the snapshot, each as often as in the previous list; so exactly once each when that list is duplicate-free |
| Accounts.SynchronizeSplits | packages/core/src/index.ts:34-52 | the upserted addresses are `union(new, preExisting)` in order, and every upsert carries the first-match name of its address |
| Accounts.SynchronizeUpsertsSnapshot | packages/core/src/index.ts:34-52 | the upserted addresses are the distinct snapshot addresses, each once, each named after the first snapshot entry for it |
| Accounts.ApplyRemovals | packages/core/src/index.ts:40-42 | applying the removals deletes exactly the removed addresses from an address-to-name store |
| Accounts.ApplyUpserts | packages/core/src/index.ts:45-52 | applying the upserts writes each upserted address with its first-match name |
| Accounts.SynchronizeApplied | packages/core/src/index.ts:39-52 | the actions of one emission turn a store into: the store minus the removed addresses, plus the upserted addresses with their names |
| Accounts.SynchronizeReconciles | packages/core/src/index.ts:26-53 | reconciliation: afterwards the store holds exactly the snapshot addresses (with first-match names) plus the entries it held that were never in the previous list, which are unchanged |
| Claims.ClaimSorter | packages/core/src/index.ts:58-67 | `claimSorter` answers only -1 or 1; a negative answer means `a` never expires or expires no earlier than `b`, a positive answer the reverse |
| Claims.ClaimSorterInconsistentOnTies | packages/core/src/index.ts:58-67 | on two claims with the same expiry (both none, or equal) the two argument orders get answers of the same sign, which breaks the comparator contract of `Array.prototype.sort` |
| Claims.CompareClaims | packages/core/src/index.ts:58-67 | the consistent comparator `claimSorter` stands for: negative, positive or 0 exactly when `a` strictly outranks `b`, `b` strictly outranks `a`, or they tie |
| Claims.CompareClaimsConsistent | packages/core/src/index.ts:58-67 | swapping the arguments of CompareClaims always flips the sign, and 0 stays 0 |
| Claims.Insert | packages/core/src/index.ts:87 | inserting into a list sorted last-to-expire-first keeps it sorted and adds exactly the one claim |
| Claims.SortClaims | packages/core/src/index.ts:87 | the sort returns a permutation of the claims sorted last-to-expire-first |
| Claims.HeadRecord | packages/core/src/index.ts:90-95 | `undefined` exactly for no claims; otherwise the head claim's issuer, and an expiry present exactly when the head's expiry is, with its value |
| Claims.AnySortChoosesMaximal | packages/core/src/index.ts:85-95 | the head of ANY sorted permutation of the claims, whatever order ties are in, is one of the claims: no expiry if some claim has none, otherwise an expiry no earlier than any other claim's |
| Claims.Claims2Record | packages/core/src/index.ts:85-98 | `claims2Record` returns `undefined` exactly for no claims, and otherwise the record of a maximal claim, up to ties |
| Claims.FromActiveIssuers | packages/core/src/index.ts:236-237 | the filter keeps exactly the claims from active issuers, each as often as it occurred |
| Claims.CddUpdate | packages/core/src/index.ts:235-244 | no dispatch exactly when the query returned no entries; `cdd` undefined exactly when it returned entries none of which is from an active issuer; otherwise the issuer and expiry of an entry from an active issuer that no such entry outranks: no expiry if one of them has none, otherwise the latest expiry |
| Claims.InactiveClaimsIgnored | packages/core/src/index.ts:235-237 | a further entry from an inactive issuer never changes what a nonempty query turns into |
| Identity.AccountSigners | packages/core/src/index.ts:70-74 | the account ids of exactly the account-type secondary signers, no more of them than there are keys |
| Identity.CollectSecKeys | packages/core/src/index.ts:70-74 | the `reduce` only appends to its start value, at most one address per secondary key |
| Identity.CollectSecKeysEncodesAccounts | packages/core/src/index.ts:70-74 | the `reduce` appends to its start value exactly the encodings of the account-type signers, in order |
| Identity.DidRecordData | packages/core/src/index.ts:69-83 | `_didRecord` keeps the DID, encodes the primary key, and its `secKeys` are the order-preserving encodings of exactly the account-type signers, at most one per secondary key |
| Registry.CancelKeysInvokesOnce | packages/core/src/index.ts:157-162 | a sweep over keys invokes only stored callbacks named among the keys, the callback stored under each, and no key twice |
| Registry.CancelKeys | packages/core/src/index.ts:157-162 | a sweep over keys (also lines 219-227) never adds an entry and never changes an entry it keeps |
| Registry.CancelKeysRemaining | packages/core/src/index.ts:157-162 | after a sweep a key is stored exactly when it was stored and its callback did not return normally; surviving entries keep their callbacks |
| Registry.CancelKeysCompletes | packages/core/src/index.ts:219-227 | a sweep completes exactly when no stored key among them throws; then every stored key was invoked; otherwise the last invocation is the one that threw |
| Registry.CancelKeysClears | packages/core/src/index.ts:219-227 | a completed sweep leaves none of the keys stored and every other entry as it was |
| Registry.ReplaceKey | packages/core/src/index.ts:202-203 | replacing a fixed key's subscription (also lines 116-118 and 208-211) completes exactly when no previous callback throws; then the key holds the new callback and every other entry is as it was; otherwise nothing changes; the previous callback, if any, is invoked once |
| Registry.Registry.constructor | packages/core/src/index.ts:21 | the registry starts empty, with nothing invoked |
| Registry.Registry.CancelEach | packages/core/src/index.ts:157-162 | the loop over the keys leaves the registry and the invocation log as CancelKeys says |
| Registry.Registry.Replace | packages/core/src/index.ts:202-203 | a fixed key's previous callback is invoked if present; unless it throws, the new callback overwrites it; nothing else changes |
| Registry.Registry.Assign | packages/core/src/index.ts:194-196 | a new account subscription is stored by plain assignment, without invoking what was there |
| Registry.Registry.UnsubAll | packages/core/src/index.ts:101-112 | every stored callback is invoked exactly once; the entries whose callback returned are deleted; exactly those whose callback threw remain, unchanged |
| Polymesh.Store.Dispatch | packages/core/src/index.ts:41 | a dispatch appends its action to the store's log |
| Polymesh.StoreSubscriptions | packages/core/src/index.ts:194-196 | the per-account stores delete nothing, and only keys of the accounts gain entries |
| Polymesh.StoreSubscriptionsSpec | packages/core/src/index.ts:165-196 | after the per-account stores, a key is present when it was before or a subscription was handed back for it; an entry that changed holds a callback handed back for that key; keys naming no account are unchanged |
| Polymesh.NotIssuedKeeps | packages/core/src/index.ts:194-196 | a key for which no subscription is handed back keeps the entry it had |
| Polymesh.StoresLast | packages/core/src/index.ts:194-196 | the last subscription handed back for an account is what the registry holds under it, whatever entry it had before; that entry is overwritten without being invoked |
| Polymesh.AccountPassReplacesPrevious | packages/core/src/index.ts:156-196 | in a completed account pass no previous account is in the registry before the new subscriptions are stored, each previous account's callback was invoked once, and afterwards a previous account's entry, if any, was issued by this pass |
| Polymesh.TeardownDids | packages/core/src/index.ts:214-228 | no more `removeIdentity` dispatches than entries in the removed list, and exactly as many when the teardown completes |
| Polymesh.TeardownDidsCompleted | packages/core/src/index.ts:216-228 | a completed teardown dispatched one `removeIdentity` per removed DID, in order, and deleted exactly their DID and CDD entries |
| Polymesh.TeardownDidsStopped | packages/core/src/index.ts:216-228 | a teardown cut short by a throwing callback dispatched the removals of a nonempty prefix of the removed DIDs |
| Polymesh.RemoveIdentitiesCount | packages/core/src/index.ts:216-217 | each DID gets as many `removeIdentity` actions as it occurs in the list |
| Polymesh.DidPassTeardown | packages/core/src/index.ts:214-228 | a completed teardown removes only DIDs that left the list, once each for a duplicate-free previous list; afterwards neither such a DID nor its CDD key is stored, and unrelated entries are unchanged |
| Polymesh.CddDispatches | packages/core/src/index.ts:240-248 | no more dispatches than entries in the DID list, each a `setIdentityCdd` for a tracked DID under the pass's network |
| Polymesh.CddDispatchesComplete | packages/core/src/index.ts:240-248 | every DID whose query produced an update gets its `setIdentityCdd` |
| Polymesh.CddDispatchesSound | packages/core/src/index.ts:240-248 | every `setIdentityCdd` dispatched is the update of one DID |
| Polymesh.CddGateSound | packages/core/src/index.ts:235-247 | every CDD dispatch is for a tracked DID under the pass's network, and a record dispatched is a maximal claim among that DID's claims from active issuers: no expiry if one of them has none, otherwise the latest expiry |
| Polymesh.CddGateUndefined | packages/core/src/index.ts:235-247 | a DID whose query returned entries, none from an active issuer, gets `setIdentityCdd` with `cdd` undefined |
| Polymesh.CddGateSilent | packages/core/src/index.ts:235-247 | a DID whose queries returned no entries gets no `setIdentityCdd` |
| Polymesh.CddGate | packages/core/src/index.ts:235-247 | the three gate properties above, for all DIDs of a pass at once |
| Polymesh.AccountUpdate | packages/core/src/index.ts:171-193 | one `setAccount` with the account's first-match name and balance, followed by a `setIdentity` exactly when the account is linked to a DID whose record loaded; that identity carries the DID, the encoded primary key, and `secKeys` encoding its account-type signers |
| Polymesh.Session.constructor | packages/core/src/index.ts:135-137 | a session starts with empty `prevAccounts`, `prevDids` and `activeIssuers` |
| Polymesh.Session.Start | packages/core/src/index.ts:139-141 | once the active issuers are known, they are stored, then the `accounts` and `dids` subscriptions are replaced in turn (lines 202-211); a failed member query or a throwing previous callback stops there |
| Polymesh.Session.AccountsPass | packages/core/src/index.ts:147-200 | a stale pass changes nothing; otherwise every previous account's entry is swept, and if that completes the new subscriptions are stored and `prevAccounts` becomes the snapshot's addresses; if a callback throws the pass ends with `prevAccounts` unchanged |
| Polymesh.Session.OnAccountData | packages/core/src/index.ts:171-193 | the per-account query callback dispatches exactly AccountUpdate |
| Polymesh.Session.TeardownOne | packages/core/src/index.ts:216-227 | one removed DID: its `removeIdentity`, then the sweep of its DID and CDD keys |
| Polymesh.Session.TeardownRemoved | packages/core/src/index.ts:216-228 | the loop over the removed DIDs leaves registry, invocation log and store as TeardownDids says |
| Polymesh.Session.DispatchCdds | packages/core/src/index.ts:240-248 | the loop over the DIDs dispatches exactly CddDispatches, in order |
| Polymesh.Session.DidsPass | packages/core/src/index.ts:211-253 | a stale pass changes nothing; otherwise the removed DIDs are torn down; if that completes, the CDD dispatches follow (none if a claim query failed) and `prevDids` becomes `dids`; if a callback throws the pass ends with `prevDids` unchanged |
| Polymesh.SubscribePolymesh | packages/core/src/index.ts:116-118 | the `network` callback of a previous call is invoked if present; unless it throws, the new network subscription is stored over it |
| Polymesh.OnSelectedNetwork | packages/core/src/index.ts:118-137 | an absent or empty selection does nothing; otherwise `init` is dispatched; on a failed connection nothing more happens; on a connection `apiReady` and the address format follow, and a fresh session for that network starts |

## Left out

- Chain RPC (`apiPromise`, `queryMulti`, `didRecords`, `claims.entries`, `cddServiceProviders.activeMembers`). Their results and the cancellation callbacks they hand back are parameters.
- Promise chaining and interleaving. Each pass is modelled as one sequential step. The per-account subscription stores and the CDD dispatches after `Promise.all` stay in pass order. The per-account `queryMulti` callback is different: it is modelled as a separate event handler (`Polymesh.Session.OnAccountData`) that can run at any time, with no staleness check, and no pass calls it. An in-flight query of an older pass that resolves after a newer pass is not modelled.
- Callbacks that `observeAccounts`, `subscribeDidsList` or `subscribeSelectedNetwork` might invoke synchronously, before their subscription is stored (lines 147, 211, 118), are not modelled.
- The `populated` dispatch after `setTimeout(populatedDelay)` (lines 131-133) is a timer side effect and is not modelled.
- The redux store, its action creators and reducers, and the getters `getAccountsList`/`getNetwork` are not modelled. The store is its log of dispatched actions. The previous account list of `accountsSynchronizer` and the currently selected network are parameters.
- Accounts.Apply: an assumed reducer, not the store's own. It reads `removeAccountGlobally` as deleting the address and `setAccountGlobally` as writing address to name, over a plain address-to-name map. Balances and networks are not represented. `ApplyRemovals`, `ApplyUpserts`, `SynchronizeApplied` and `SynchronizeReconciles` hold under this reading only.
- `encodeAddress` (SS58 encoding) is an uninterpreted function parameter. `accountBalances` is not part of this model: a `Balance` is given.
- `linkedKeyInfo.toString()` is taken to be the DID string. Codec details (`isEmpty`, `unwrapOrDefault`, `toString` of issuers and members) are not modelled.
- Claims.Claims2Record: specified up to ties only. `Array.prototype.sort` with the inconsistent `claimSorter` leaves the order of tied claims implementation-defined. The model sorts with the consistent comparator and proves that any sorted permutation yields a maximal claim.
- Claims.Claim: `Number(expiry.toString())` is taken as exact. Rounding of moments above 2^53 is not modelled.
- Claims.ClaimSorter: line 65 compares two `unwrapOrDefault()` moment codecs with `>`. The model takes that comparison to be the order of the expiries as natural numbers. The codecs' own value conversion is not modelled.
- `console.log`/`console.error` and `apiErrorHandler` are output only. An error handled by them ends that branch. The model expresses this as `None` inputs, or as `Session.Start` returning false.
- The function `accountsSynchronizer` returns, which unsubscribes the keyring observer, is not modelled, and neither is the `accountsSub.unsubscribe()` callback stored at line 203. `Registry.Registry.Replace` stores an opaque token in its place.
- The UI packages and `packages/core/src/constants.ts` are not part of this model.

## Findings

| source | as written | input that shows it | evidently intended | confidence | as-written member | corrected member |
|---|---|---|---|---|---|---|
| packages/core/src/index.ts:58-67 | `claimSorter` never returns 0: it returns -1 when `a` has no expiry (whatever `b` is) and 1 when the expiries are equal | two claims without expiry `a`, `b`: `claimSorter(a, b) = claimSorter(b, a) = -1`; with equal expiries both orders give 1 | a consistent comparator that returns 0 on ties, so that which tied issuer becomes the CDD record does not depend on the sort implementation | not executed | Claims.ClaimSorterInconsistentOnTies | Claims.CompareClaimsConsistent |
