/**
 * The subscription registry: the module-level dictionary `unsubCallbacks` from a key
 * (an account address, a DID, `<did>:cdd`, or one of the fixed keys `network`,
 * `accounts`, `dids`) to the callback that cancels the subscription stored there.
 */
module Registry {

  /**
   * A cancellation callback. Invoking it has no effect the model can see except
   * that it may throw; `throws` says whether it does.
   */
  datatype Token = Token(id: nat, throws: bool)

  /** Invoking this callback raises an exception. */
  predicate CancelThrows(t: Token) {
    t.throws
  }

  /** One invocation of a stored callback: the key it was stored under, and the callback. */
  datatype Cancellation = Cancellation(key: string, token: Token)

  /** What cancelling a list of keys one after the other leaves behind. */
  datatype Sweep = Sweep(remaining: map<string, Token>, cancelled: seq<Cancellation>, completed: bool)

  /**
   * Cancel-and-delete the entry of each key in turn, skipping keys with no entry. The
   * sweep is not guarded, so a callback that throws ends it there, its entry still
   * stored. A sweep never adds an entry and never changes one it keeps.
   */
  function CancelKeys(m: map<string, Token>, keys: seq<string>): (r: Sweep)
    ensures forall k :: k in r.remaining ==> k in m && r.remaining[k] == m[k]
    decreases |keys|
  {
    if keys == [] then Sweep(m, [], true)
    else if keys[0] !in m then CancelKeys(m, keys[1..])
    else
      var t := m[keys[0]];
      if CancelThrows(t) then Sweep(m, [Cancellation(keys[0], t)], false)
      else
        var rest := CancelKeys(m - {keys[0]}, keys[1..]);
        Sweep(rest.remaining, [Cancellation(keys[0], t)] + rest.cancelled, rest.completed)
  }

  /** Every invocation in `log` is of an entry of `m`, and no key is invoked twice. */
  ghost predicate InvokedOnce(log: seq<Cancellation>, m: map<string, Token>) {
    && (forall j :: 0 <= j < |log| ==> log[j].key in m && log[j].token == m[log[j].key])
    && (forall i, j :: 0 <= i < j < |log| ==> log[i].key != log[j].key)
  }

  /** Some invocation in `log` is of the entry under `k`. */
  ghost predicate InvokedKey(log: seq<Cancellation>, k: string) {
    exists j :: 0 <= j < |log| && log[j].key == k
  }

  /** Some invocation in `log` returned normally, so the entry under `k` was deleted. */
  ghost predicate DeletedKey(log: seq<Cancellation>, k: string) {
    exists j :: 0 <= j < |log| && log[j].key == k && !CancelThrows(log[j].token)
  }

  /** A sweep invokes only stored entries named in `keys`, each at most once. */
  lemma {:induction false} CancelKeysInvokesOnce(m: map<string, Token>, keys: seq<string>)
    ensures var s := CancelKeys(m, keys);
      && InvokedOnce(s.cancelled, m)
      && (forall j :: 0 <= j < |s.cancelled| ==> s.cancelled[j].key in keys)
    decreases |keys|
  {
    if keys == [] {
    } else if keys[0] !in m {
      CancelKeysInvokesOnce(m, keys[1..]);
    } else if !CancelThrows(m[keys[0]]) {
      var k0 := keys[0];
      CancelKeysInvokesOnce(m - {k0}, keys[1..]);
      var rest := CancelKeys(m - {k0}, keys[1..]).cancelled;
      var log := [Cancellation(k0, m[k0])] + rest;
      assert forall j :: 1 <= j < |log| ==> log[j] == rest[j - 1];
    }
  }

  /**
   * After a sweep, an entry is gone exactly when its callback was invoked and
   * returned; every other entry, of `keys` or not, is still stored unchanged.
   */
  lemma {:induction false} CancelKeysRemaining(m: map<string, Token>, keys: seq<string>)
    ensures var s := CancelKeys(m, keys);
      && (forall k :: k in s.remaining <==> k in m && !DeletedKey(s.cancelled, k))
      && (forall k :: k in s.remaining ==> s.remaining[k] == m[k])
    decreases |keys|
  {
    if keys == [] {
    } else if keys[0] !in m {
      CancelKeysRemaining(m, keys[1..]);
    } else if !CancelThrows(m[keys[0]]) {
      var k0 := keys[0];
      CancelKeysRemaining(m - {k0}, keys[1..]);
      var rest := CancelKeys(m - {k0}, keys[1..]).cancelled;
      var log := [Cancellation(k0, m[k0])] + rest;
      assert DeletedKey(log, k0) by {
        assert log[0].key == k0;
      }
      forall k | k != k0
        ensures DeletedKey(log, k) <==> DeletedKey(rest, k)
      {
        if DeletedKey(log, k) {
          var j :| 0 <= j < |log| && log[j].key == k && !CancelThrows(log[j].token);
          assert rest[j - 1] == log[j];
        }
        if DeletedKey(rest, k) {
          var j :| 0 <= j < |rest| && rest[j].key == k && !CancelThrows(rest[j].token);
          assert log[j + 1] == rest[j];
        }
      }
    } else {
      var log := [Cancellation(keys[0], m[keys[0]])];
      assert forall k :: !DeletedKey(log, k);
    }
  }

  /**
   * A sweep completes exactly when no stored entry among `keys` throws; then every
   * such entry was invoked. Otherwise the last invocation is the one that threw.
   */
  lemma {:induction false} CancelKeysCompletes(m: map<string, Token>, keys: seq<string>)
    ensures var s := CancelKeys(m, keys);
      && (s.completed <==> forall k :: k in keys && k in m ==> !CancelThrows(m[k]))
      && (s.completed ==> forall k :: k in keys && k in m ==> InvokedKey(s.cancelled, k))
      && (!s.completed ==> |s.cancelled| > 0 && CancelThrows(s.cancelled[|s.cancelled| - 1].token))
    decreases |keys|
  {
    if keys == [] {
    } else if keys[0] !in m {
      CancelKeysCompletes(m, keys[1..]);
    } else if !CancelThrows(m[keys[0]]) {
      var k0 := keys[0];
      var m' := m - {k0};
      CancelKeysCompletes(m', keys[1..]);
      var rest := CancelKeys(m', keys[1..]);
      var log := [Cancellation(k0, m[k0])] + rest.cancelled;
      assert keys == [k0] + keys[1..];
      assert forall k :: k in keys ==> k == k0 || k in keys[1..];
      if rest.completed {
        forall k | k in keys && k in m
          ensures InvokedKey(log, k)
        {
          if k != k0 {
            assert k in keys[1..] && k in m';
            var j :| 0 <= j < |rest.cancelled| && rest.cancelled[j].key == k;
            assert log[j + 1].key == k;
          } else {
            assert log[0].key == k;
          }
        }
      }
    }
  }

  /** A completed sweep leaves none of `keys` stored and every other entry as it was. */
  lemma CancelKeysClears(m: map<string, Token>, keys: seq<string>)
    requires CancelKeys(m, keys).completed
    ensures CancelKeys(m, keys).remaining == m - (set k | k in keys)
  {
    var s := CancelKeys(m, keys);
    CancelKeysCompletes(m, keys);
    CancelKeysInvokesOnce(m, keys);
    CancelKeysRemaining(m, keys);
    forall k | k in keys && k in m
      ensures DeletedKey(s.cancelled, k)
    {
      var j :| 0 <= j < |s.cancelled| && s.cancelled[j].key == k;
      assert s.cancelled[j].token == m[k];
    }
  }

  /**
   * Replace the subscription stored under a fixed key: the previous callback is
   * invoked when there is one; unless it throws, the new one is stored over it and
   * every other entry stays; if it throws, nothing changes.
   */
  function ReplaceKey(m: map<string, Token>, key: string, token: Token): (r: Sweep)
    ensures r.completed <==> !(key in m && CancelThrows(m[key]))
    ensures r.completed ==> key in r.remaining && r.remaining[key] == token
    ensures r.completed ==> forall k :: k != key ==> (k in r.remaining <==> k in m) && (k in m ==> r.remaining[k] == m[k])
    ensures !r.completed ==> r.remaining == m
    ensures r.cancelled != [] <==> key in m
    ensures forall c :: c in r.cancelled ==> c == Cancellation(key, m[key])
  {
    if key in m && CancelThrows(m[key]) then Sweep(m, [Cancellation(key, m[key])], false)
    else Sweep(m[key := token], if key in m then [Cancellation(key, m[key])] else [], true)
  }

  class Registry {
    /** `unsubCallbacks` */
    var callbacks: map<string, Token>
    /** Every callback invocation so far, oldest first. */
    ghost var cancelled: seq<Cancellation>

    constructor ()
      ensures callbacks == map[] && cancelled == []
    {
      callbacks := map[];
      cancelled := [];
    }

    /** Cancel-and-delete each of `keys` in turn; see CancelKeys. */
    method CancelEach(keys: seq<string>) returns (completed: bool)
      modifies this
      ensures var s := CancelKeys(old(callbacks), keys);
        && callbacks == s.remaining
        && cancelled == old(cancelled) + s.cancelled
        && completed == s.completed
    {
      ghost var whole := CancelKeys(callbacks, keys);
      ghost var done: seq<Cancellation> := [];
      var i := 0;
      while i < |keys|
        invariant 0 <= i <= |keys|
        invariant cancelled == old(cancelled) + done
        invariant var s := CancelKeys(callbacks, keys[i..]);
          && whole.remaining == s.remaining && whole.completed == s.completed
          && whole.cancelled == done + s.cancelled
      {
        var k := keys[i];
        assert keys[i..][0] == k && keys[i..][1..] == keys[i + 1..];
        if k in callbacks {
          var t := callbacks[k];
          ghost var rest := CancelKeys(callbacks - {k}, keys[i + 1..]);
          cancelled := cancelled + [Cancellation(k, t)];
          if t.throws {
            return false;
          }
          assert done + ([Cancellation(k, t)] + rest.cancelled) == (done + [Cancellation(k, t)]) + rest.cancelled;
          done := done + [Cancellation(k, t)];
          callbacks := callbacks - {k};
        }
        i := i + 1;
      }
      assert done + [] == done;
      return true;
    }

    /**
     * Replace the subscription under one of the fixed keys: the previous
     * callback is invoked but its entry is overwritten, not deleted. If it throws,
     * nothing is stored.
     */
    method Replace(key: string, token: Token) returns (completed: bool)
      modifies this
      ensures completed <==> key !in old(callbacks) || !CancelThrows(old(callbacks)[key])
      ensures cancelled == old(cancelled) + if key in old(callbacks) then [Cancellation(key, old(callbacks)[key])] else []
      ensures callbacks == if completed then old(callbacks)[key := token] else old(callbacks)
      ensures var s := ReplaceKey(old(callbacks), key, token);
        callbacks == s.remaining && cancelled == old(cancelled) + s.cancelled && completed == s.completed
    {
      if key in callbacks {
        var t := callbacks[key];
        cancelled := cancelled + [Cancellation(key, t)];
        if t.throws {
          return false;
        }
      }
      callbacks := callbacks[key := token];
      return true;
    }

    /** A plain store under `key`: whatever was there is dropped without being invoked. */
    method Assign(key: string, token: Token)
      modifies this
      ensures callbacks == old(callbacks)[key := token]
      ensures cancelled == old(cancelled)
    {
      callbacks := callbacks[key := token];
    }

    /**
     * `unsubAll`: invoke every stored callback once, inside a `try`; delete the
     * entries whose callback returned and keep those whose callback threw.
     */
    method UnsubAll()
      modifies this
      ensures callbacks == map k | k in old(callbacks) && CancelThrows(old(callbacks)[k]) :: old(callbacks)[k]
      ensures |old(cancelled)| <= |cancelled| && cancelled[..|old(cancelled)|] == old(cancelled)
      ensures InvokedOnce(cancelled[|old(cancelled)|..], old(callbacks))
      ensures forall k :: k in old(callbacks) ==> InvokedKey(cancelled[|old(cancelled)|..], k)
    {
      ghost var n := |cancelled|;
      ghost var m := callbacks;
      var todo := callbacks.Keys;
      while todo != {}
        invariant todo <= m.Keys
        invariant forall k :: k in callbacks <==> k in m && (k in todo || CancelThrows(m[k]))
        invariant forall k :: k in callbacks ==> callbacks[k] == m[k]
        invariant n <= |cancelled| && cancelled[..n] == old(cancelled)
        invariant InvokedOnce(cancelled[n..], m)
        invariant forall j :: n <= j < |cancelled| ==> cancelled[j].key !in todo
        invariant forall k :: k in m && k !in todo ==> InvokedKey(cancelled[n..], k)
        decreases todo
      {
        var k :| k in todo;
        var t := callbacks[k];
        ghost var before := cancelled;
        cancelled := cancelled + [Cancellation(k, t)];
        LogAppend(before, n, m, Cancellation(k, t));
        if !t.throws {
          callbacks := callbacks - {k};
        }
        todo := todo - {k};
      }
      assert callbacks == map k | k in m && CancelThrows(m[k]) :: m[k];
    }
  }

  /** Appending the invocation of a not yet invoked entry keeps the log's promises. */
  lemma LogAppend(log: seq<Cancellation>, n: nat, m: map<string, Token>, c: Cancellation)
    requires n <= |log|
    requires InvokedOnce(log[n..], m)
    requires c.key in m && c.token == m[c.key]
    requires forall j :: n <= j < |log| ==> log[j].key != c.key
    ensures (log + [c])[n..] == log[n..] + [c]
    ensures InvokedOnce((log + [c])[n..], m)
    ensures forall k :: InvokedKey(log[n..], k) ==> InvokedKey((log + [c])[n..], k)
    ensures InvokedKey((log + [c])[n..], c.key)
  {
    var old_ := log[n..];
    var new_ := (log + [c])[n..];
    assert new_ == old_ + [c];
    assert new_[|new_| - 1] == c;
    forall k | InvokedKey(old_, k)
      ensures InvokedKey(new_, k)
    {
      var j :| 0 <= j < |old_| && old_[j].key == k;
      assert new_[j] == old_[j];
    }
  }
}
