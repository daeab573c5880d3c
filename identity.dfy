/**
 * `_didRecord`: the identity data stored for a DID, built from its on-chain record.
 * Only secondary keys whose signer is an account are kept, in order, each encoded
 * as an address; signers that are identities are dropped.
 */
module Identity {

  /** A raw 32-byte account public key as the chain returns it. */
  type AccountId = seq<bv8>

  /** Who a secondary key is: an account key, or another identity. */
  datatype Signer = Account(accountId: AccountId) | IdentitySigner(did: string)

  /** One secondary key of an identity (its permissions play no part here). */
  datatype SecondaryKey = SecondaryKey(signer: Signer)

  /** The chain's record for a DID. */
  datatype DidRecord = DidRecord(primaryKey: AccountId, secondaryKeys: seq<SecondaryKey>)

  /** The identity data dispatched to the store: `{ did, priKey, secKeys }`. */
  datatype IdentityData = IdentityData(did: string, priKey: string, secKeys: seq<string>)

  /** The account ids of the account-type signers, in order: the reference for `secKeys`. */
  function AccountSigners(keys: seq<SecondaryKey>): (r: seq<AccountId>)
    ensures |r| <= |keys|
    ensures forall id :: id in r <==> exists i :: 0 <= i < |keys| && keys[i].signer == Account(id)
  {
    if keys == [] then []
    else
      assert forall i :: 0 < i < |keys| ==> keys[i] == keys[1..][i - 1];
      (if keys[0].signer.Account? then [keys[0].signer.accountId] else []) + AccountSigners(keys[1..])
  }

  /** Each account id encoded as an address, in order. */
  function EncodeAll(encode: AccountId -> string, ids: seq<AccountId>): seq<string> {
    seq(|ids|, i requires 0 <= i < |ids| => encode(ids[i]))
  }

  /**
   * The `reduce` over the secondary keys: starting from `keys`, append the encoded
   * address of each account-type signer and pass the others over. It only ever
   * appends, at most one address per secondary key.
   */
  function CollectSecKeys(keys: seq<string>, items: seq<SecondaryKey>, encode: AccountId -> string): (r: seq<string>)
    ensures |keys| <= |r| <= |keys| + |items| && r[..|keys|] == keys
    decreases |items|
  {
    if items == [] then keys
    else
      var next := if items[0].signer.Account? then keys + [encode(items[0].signer.accountId)] else keys;
      CollectSecKeys(next, items[1..], encode)
  }

  /** The reduce appends exactly the encodings of the account signers, in order. */
  lemma {:induction false} CollectSecKeysEncodesAccounts(keys: seq<string>, items: seq<SecondaryKey>, encode: AccountId -> string)
    ensures CollectSecKeys(keys, items, encode) == keys + EncodeAll(encode, AccountSigners(items))
    decreases |items|
  {
    if items != [] {
      var next := if items[0].signer.Account? then keys + [encode(items[0].signer.accountId)] else keys;
      CollectSecKeysEncodesAccounts(next, items[1..], encode);
      var head := if items[0].signer.Account? then [items[0].signer.accountId] else [];
      assert AccountSigners(items) == head + AccountSigners(items[1..]);
      assert EncodeAll(encode, head + AccountSigners(items[1..]))
        == EncodeAll(encode, head) + EncodeAll(encode, AccountSigners(items[1..]));
    }
  }

  /**
   * `_didRecord(did, didRecords)`, with `encodeAddress` (an address encoding from an
   * external library) passed in as `encode`.
   */
  function DidRecordData(did: string, record: DidRecord, encode: AccountId -> string): (r: IdentityData)
    ensures r.did == did && r.priKey == encode(record.primaryKey)
    ensures r.secKeys == EncodeAll(encode, AccountSigners(record.secondaryKeys))
    ensures |r.secKeys| <= |record.secondaryKeys|
  {
    CollectSecKeysEncodesAccounts([], record.secondaryKeys, encode);
    IdentityData(did, encode(record.primaryKey), CollectSecKeys([], record.secondaryKeys, encode))
  }
}
