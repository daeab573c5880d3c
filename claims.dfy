/**
 * CDD claim selection: the claims of one identity are filtered to the active CDD
 * issuers, ordered "last to expire first" (a claim without expiry never expires and
 * comes before any claim that does), and the first one becomes the identity's CDD
 * record.
 */
module Claims {
  import opened Common

  /** A CDD claim on an identity: who issued it and when, if ever, it expires. */
  datatype Claim = Claim(issuer: string, expiry: Option<nat>)

  /** The CDD record stored for an identity: `{ issuer, expiry? }`. */
  datatype CddRecord = CddRecord(issuer: string, expiry: Option<nat>)

  /**
   * `a` may stand before `b` in "last to expire first" order: `a` never expires, or
   * both expire and `a` expires no earlier. A total preorder.
   */
  predicate Outranks(a: Claim, b: Claim) {
    a.expiry.None? || (b.expiry.Some? && a.expiry.value >= b.expiry.value)
  }

  /**
   * `claimSorter` as written: negative puts `a` first. Every verdict it gives agrees
   * with `Outranks`, but it never answers 0, so on ties it answers the same sign both
   * ways round (see ClaimSorterInconsistentOnTies).
   */
  function ClaimSorter(a: Claim, b: Claim): (r: int)
    ensures r == -1 || r == 1
    ensures r < 0 ==> Outranks(a, b)
    ensures r > 0 ==> Outranks(b, a)
  {
    if a.expiry.None? then -1
    else if b.expiry.None? then 1
    else if a.expiry.value > b.expiry.value then -1
    else 1
  }

  /** The ECMAScript requirement on a comparator for one pair: swapping the arguments flips the sign. */
  predicate SignsAgree(ab: int, ba: int) {
    (ab < 0 <==> ba > 0) && (ab == 0 <==> ba == 0)
  }

  /**
   * Two claims that tie (both without expiry, or with equal expiries) make
   * `claimSorter` break the requirement, so the order `Array.prototype.sort` gives
   * them, and the issuer that ends up first among them, is implementation-defined.
   */
  lemma ClaimSorterInconsistentOnTies(a: Claim, b: Claim)
    requires a.expiry == b.expiry
    ensures !SignsAgree(ClaimSorter(a, b), ClaimSorter(b, a))
  {
  }

  /** The consistent comparator `claimSorter` stands for: 0 exactly on ties. */
  function CompareClaims(a: Claim, b: Claim): (r: int)
    ensures r < 0 <==> Outranks(a, b) && !Outranks(b, a)
    ensures r > 0 <==> Outranks(b, a) && !Outranks(a, b)
    ensures r == 0 <==> Outranks(a, b) && Outranks(b, a)
  {
    match (a.expiry, b.expiry)
    case (None, None) => 0
    case (None, Some(_)) => -1
    case (Some(_), None) => 1
    case (Some(x), Some(y)) => if x > y then -1 else if x < y then 1 else 0
  }

  /** CompareClaims meets the ECMAScript requirement on every pair. */
  lemma CompareClaimsConsistent(a: Claim, b: Claim)
    ensures SignsAgree(CompareClaims(a, b), CompareClaims(b, a))
  {
  }

  /** Each element outranks every later one. */
  predicate SortedByExpiry(s: seq<Claim>) {
    forall i, j :: 0 <= i < j < |s| ==> Outranks(s[i], s[j])
  }

  lemma OutranksTransitive(a: Claim, b: Claim, c: Claim)
    requires Outranks(a, b) && Outranks(b, c)
    ensures Outranks(a, c)
  {
  }

  lemma SortedCons(a: Claim, s: seq<Claim>)
    requires SortedByExpiry(s)
    requires forall x :: x in s ==> Outranks(a, x)
    ensures SortedByExpiry([a] + s)
  {
    var t := [a] + s;
    forall i, j | 0 <= i < j < |t|
      ensures Outranks(t[i], t[j])
    {
      assert t[j] == s[j - 1];
      if i > 0 {
        assert t[i] == s[i - 1];
      }
    }
  }

  function Insert(c: Claim, sorted: seq<Claim>): (r: seq<Claim>)
    requires SortedByExpiry(sorted)
    ensures SortedByExpiry(r)
    ensures multiset(r) == multiset(sorted) + multiset{c}
  {
    if sorted == [] || CompareClaims(c, sorted[0]) <= 0 then
      assert forall x :: x in sorted ==> Outranks(c, x) by {
        forall x | x in sorted ensures Outranks(c, x) {
          var j :| 0 <= j < |sorted| && sorted[j] == x;
          if j > 0 {
            OutranksTransitive(c, sorted[0], x);
          }
        }
      }
      SortedCons(c, sorted);
      [c] + sorted
    else
      var rest := Insert(c, sorted[1..]);
      assert sorted == [sorted[0]] + sorted[1..];
      assert forall x :: x in rest ==> Outranks(sorted[0], x) by {
        forall x | x in rest ensures Outranks(sorted[0], x) {
          assert x in multiset(rest);
          if x != c {
            assert x in sorted[1..];
          }
        }
      }
      SortedCons(sorted[0], rest);
      [sorted[0]] + rest
  }

  /** The sort `claims2Record` performs, done with the consistent comparator. */
  function SortClaims(claims: seq<Claim>): (r: seq<Claim>)
    ensures SortedByExpiry(r)
    ensures multiset(r) == multiset(claims)
  {
    if claims == [] then []
    else
      assert claims == [claims[0]] + claims[1..];
      Insert(claims[0], SortClaims(claims[1..]))
  }

  /** The record built from the head of the sorted claims; `undefined` when there are none. */
  function HeadRecord(sorted: seq<Claim>): (r: Option<CddRecord>)
    ensures r.None? <==> sorted == []
    ensures r.Some? ==> r.value.issuer == sorted[0].issuer && r.value.expiry == sorted[0].expiry
  {
    if |sorted| > 0 then Some(CddRecord(sorted[0].issuer, sorted[0].expiry)) else None
  }

  /** The record chosen is that of one of the claims, and no claim outranks it strictly. */
  ghost predicate ChosenUpToTies(claims: seq<Claim>, r: Option<CddRecord>) {
    && (r.None? <==> claims == [])
    && (r.Some? ==>
          && (exists c :: c in claims && c.issuer == r.value.issuer && c.expiry == r.value.expiry)
          && (r.value.expiry.None? <==> exists c :: c in claims && c.expiry.None?)
          && (r.value.expiry.Some? ==>
                forall c :: c in claims ==> c.expiry.Some? && c.expiry.value <= r.value.expiry.value))
  }

  /**
   * Whatever order a sort leaves tied claims in, the head of ANY permutation of the
   * claims that is sorted last-to-expire-first gives a maximal record: no expiry if
   * some claim has none, otherwise the latest expiry.
   */
  lemma {:induction false} AnySortChoosesMaximal(claims: seq<Claim>, sorted: seq<Claim>)
    requires multiset(sorted) == multiset(claims)
    requires SortedByExpiry(sorted)
    ensures ChosenUpToTies(claims, HeadRecord(sorted))
  {
    if sorted == [] {
      assert |multiset(claims)| == 0;
    } else {
      assert sorted[0] in multiset(claims);
      forall c | c in claims
        ensures Outranks(sorted[0], c)
      {
        assert c in multiset(sorted);
        var j :| 0 <= j < |sorted| && sorted[j] == c;
        if j > 0 {
          assert Outranks(sorted[0], sorted[j]);
        }
      }
      if exists c :: c in claims && c.expiry.None? {
        var c :| c in claims && c.expiry.None?;
        assert Outranks(sorted[0], c);
      }
    }
  }

  /** `claims2Record`: sort the claims, then build the record from the first one. */
  function Claims2Record(didClaims: seq<Claim>): (r: Option<CddRecord>)
    ensures ChosenUpToTies(didClaims, r)
  {
    var sorted := SortClaims(didClaims);
    AnySortChoosesMaximal(didClaims, sorted);
    HeadRecord(sorted)
  }

  /** The claims whose issuer is one of the active CDD providers, in their original order. */
  function FromActiveIssuers(claims: seq<Claim>, activeIssuers: seq<string>): (r: seq<Claim>)
    ensures forall c :: multiset(r)[c] == if c.issuer in activeIssuers then multiset(claims)[c] else 0
    ensures forall c :: c in r <==> c in claims && c.issuer in activeIssuers
  {
    if claims == [] then []
    else
      assert claims == [claims[0]] + claims[1..];
      (if claims[0].issuer in activeIssuers then [claims[0]] else []) + FromActiveIssuers(claims[1..], activeIssuers)
  }

  /**
   * `rec` is a record the query `entries` may yield: it is the issuer and expiry of
   * one entry from an active issuer, and no entry from an active issuer outranks it
   * strictly (it has no expiry if one of them has none, otherwise the latest expiry).
   */
  ghost predicate MaximalActiveRecord(entries: seq<Claim>, activeIssuers: seq<string>, rec: CddRecord) {
    && rec.issuer in activeIssuers
    && (exists c :: c in entries && c.issuer == rec.issuer && c.expiry == rec.expiry)
    && (rec.expiry.None? <==> exists c :: c in entries && c.issuer in activeIssuers && c.expiry.None?)
    && (rec.expiry.Some? ==>
          forall c :: c in entries && c.issuer in activeIssuers ==> c.expiry.Some? && c.expiry.value <= rec.expiry.value)
  }

  /**
   * What one identity's claim query turns into: `None` when the query returned no
   * entries (no dispatch), otherwise `Some(cdd)`, the value dispatched, which is
   * `undefined` when no entry came from an active issuer and otherwise a maximal
   * record among the entries from active issuers.
   */
  function CddUpdate(entries: seq<Claim>, activeIssuers: seq<string>): (r: Option<Option<CddRecord>>)
    ensures r.None? <==> entries == []
    ensures r == Some(None) <==> entries != [] && forall c :: c in entries ==> c.issuer !in activeIssuers
    ensures r.Some? && r.value.Some? ==> MaximalActiveRecord(entries, activeIssuers, r.value.value)
  {
    if |entries| > 0 then Some(Claims2Record(FromActiveIssuers(entries, activeIssuers))) else None
  }

  /**
   * A claim from an issuer that is not active never influences the record: dropping
   * such claims from the query's entries (keeping at least one entry) changes nothing.
   */
  lemma {:induction false} InactiveClaimsIgnored(entries: seq<Claim>, c: Claim, activeIssuers: seq<string>)
    requires entries != []
    requires c.issuer !in activeIssuers
    ensures CddUpdate(entries + [c], activeIssuers) == CddUpdate(entries, activeIssuers)
  {
    FilterSkipsInactive(entries, c, activeIssuers);
  }

  lemma {:induction false} FilterSkipsInactive(claims: seq<Claim>, c: Claim, activeIssuers: seq<string>)
    requires c.issuer !in activeIssuers
    ensures FromActiveIssuers(claims + [c], activeIssuers) == FromActiveIssuers(claims, activeIssuers)
  {
    if claims == [] {
      assert claims + [c] == [c];
      assert [c][1..] == [];
    } else {
      assert (claims + [c])[0] == claims[0] && (claims + [c])[1..] == claims[1..] + [c];
      FilterSkipsInactive(claims[1..], c, activeIssuers);
    }
  }
}
