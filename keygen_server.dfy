/**
 * The older key pool of key-server/keygen_server.rb: a hash from key to a
 * record holding `expiry` and, while the key is handed out, `blocked_till`;
 * the set of available keys; the set of deleted keys; and `cron`, which
 * releases keys whose block has run out and deletes keys whose expiry has
 * passed. The clock reading is the parameter `now`; the sleeping thread that
 * calls `cron` every second is not modelled.
 */
module KeygenServers {
  import opened Wrappers
  import opened FreshIds

  /** `5 * 60`: the lifetime a key gets when generated or kept alive. */
  const KEY_LIFETIME_SECONDS: int := 5 * 60
  /** How long `get_available_key` blocks a key. */
  const BLOCK_SECONDS: int := 60

  /** One value of `@keys`: the Ruby hash `{'expiry' => t}`, plus `'blocked_till' => b` while handed out. */
  datatype KeyRecord = KeyRecord(expiry: int, blockedTill: Option<int>)

  /** The three collections of the server as values. */
  datatype Pool = Pool(keys: map<string, KeyRecord>, available: set<string>, deleted: set<string>)

  /**
   * The invariant every operation keeps: available keys are stored keys,
   * stored keys are never deleted ones, and a stored key is available
   * exactly when it carries no `blocked_till`.
   */
  ghost predicate PoolInvariant(p: Pool) {
    && p.available <= p.keys.Keys
    && p.keys.Keys !! p.deleted
    && (forall k :: k in p.keys ==> (k in p.available <==> p.keys[k].blockedTill.None?))
  }

  /** `unblock_key` on values: the new pool and the returned key (nil unless the key was blocked). */
  function Unblock(p: Pool, key: string): (r: (Pool, Option<string>))
    ensures r.1.Some? <==> key in p.keys && p.keys[key].blockedTill.Some?
    ensures r.1.Some? ==>
              && r.1 == Some(key) && r.0.available == p.available + {key} && r.0.deleted == p.deleted
              && r.0.keys == p.keys[key := KeyRecord(p.keys[key].expiry, None)]
    ensures r.1.None? ==> r.0 == p
  {
    if key in p.keys && p.keys[key].blockedTill.Some? then
      (p.(keys := p.keys[key := KeyRecord(p.keys[key].expiry, None)], available := p.available + {key}), Some(key))
    else
      (p, None)
  }

  /** `delete_key` on values: a stored key moves to the deleted set. */
  function Delete(p: Pool, key: string): (r: (Pool, Option<string>))
    ensures r.1.Some? <==> key in p.keys
    ensures r.1.Some? ==>
              && r.1 == Some(key)
              && r.0 == Pool(p.keys - {key}, p.available - {key}, p.deleted + {key})
    ensures r.1.None? ==> r.0 == p
  {
    if key in p.keys then (Pool(p.keys - {key}, p.available - {key}, p.deleted + {key}), Some(key))
    else (p, None)
  }

  /** `cron` releases a key whose block has run out (strictly before now). */
  predicate Releases(r: KeyRecord, now: int) {
    r.blockedTill.Some? && r.blockedTill.value < now
  }

  /** `cron` deletes a key whose expiry has passed (strictly before now). */
  predicate Expires(r: KeyRecord, now: int) {
    r.expiry < now
  }

  /** The body of `cron`'s loop for `key`, whose record read at the start of the visit is `data`. */
  function CronVisit(p: Pool, key: string, data: KeyRecord, now: int): Pool {
    var p1 := if Releases(data, now) then Unblock(p, key).0 else p;
    if Expires(data, now) then Delete(p1, key).0 else p1
  }

  /**
   * The pool after `cron` has visited the keys in `done`, stated as sets: a
   * visited key that expired is deleted, a visited key whose block ran out
   * is released, and nothing else changes. No visiting order appears.
   */
  function CronAfter(p: Pool, done: set<string>, now: int): Pool {
    var expired := set k | k in done && k in p.keys && Expires(p.keys[k], now);
    var released := set k | k in done && k in p.keys && Releases(p.keys[k], now);
    Pool(
      map k | k in p.keys && k !in expired ::
        if k in released then KeyRecord(p.keys[k].expiry, None) else p.keys[k],
      (p.available + released) - expired,
      p.deleted + expired)
  }

  /** Before any visit nothing has changed. */
  lemma CronAfterNone(p: Pool, now: int)
    ensures CronAfter(p, {}, now) == p
  {
    assert CronAfter(p, {}, now).keys == p.keys;
  }

  /** Visiting one more key, in any order, extends the visited set by that key. */
  lemma CronVisitStep(p: Pool, done: set<string>, key: string, now: int)
    requires key in p.keys && key !in done
    ensures key in CronAfter(p, done, now).keys && CronAfter(p, done, now).keys[key] == p.keys[key]
    ensures CronVisit(CronAfter(p, done, now), key, p.keys[key], now) == CronAfter(p, done + {key}, now)
  {
    var q := CronAfter(p, done, now);
    var data := p.keys[key];
    var q1 := if Releases(data, now) then Unblock(q, key).0 else q;
    var r := CronAfter(p, done + {key}, now);
    assert key in q.keys && q.keys[key] == data;
    var left := CronVisit(q, key, data, now);
    assert left.keys == r.keys by {
      assert left.keys.Keys == r.keys.Keys;
      forall k | k in r.keys
        ensures left.keys[k] == r.keys[k]
      {
        if k != key {
          assert q1.keys[k] == q.keys[k];
        }
      }
    }
  }

  /** A full `cron` run keeps the invariant and leaves no overdue block and no overdue expiry. */
  lemma CronKeepsInvariant(p: Pool, now: int)
    requires PoolInvariant(p)
    ensures var q := CronAfter(p, p.keys.Keys, now);
      && PoolInvariant(q)
      && q.keys.Keys <= p.keys.Keys && p.deleted <= q.deleted
      && (forall k :: k in q.keys ==> !Expires(q.keys[k], now) && !Releases(q.keys[k], now))
  {
  }

  /** The pool with the keys `added` stored fresh: available, unblocked, expiring five minutes after now. */
  function WithNewKeys(p: Pool, added: set<string>, now: int): Pool {
    Pool(
      map k | k in p.keys.Keys + added :: if k in p.keys then p.keys[k] else KeyRecord(now + KEY_LIFETIME_SECONDS, None),
      p.available + added,
      p.deleted)
  }

  /** With no key added the pool is unchanged. */
  lemma WithNewKeysNone(p: Pool, now: int)
    ensures WithNewKeys(p, {}, now) == p
  {
    assert WithNewKeys(p, {}, now).keys == p.keys;
  }

  /** Storing one more fresh key extends `added` by it. */
  lemma WithNewKeysStep(p: Pool, added: set<string>, key: string, now: int)
    requires key !in WithNewKeys(p, added, now).keys
    ensures key !in p.keys && key !in added
    ensures var q := WithNewKeys(p, added, now);
      WithNewKeys(p, added + {key}, now) ==
        Pool(q.keys[key := KeyRecord(now + KEY_LIFETIME_SECONDS, None)], q.available + {key}, q.deleted)
  {
    var q := WithNewKeys(p, added, now);
    assert q.keys.Keys == p.keys.Keys + added;
    var r := WithNewKeys(p, added + {key}, now);
    assert r.keys == q.keys[key := KeyRecord(now + KEY_LIFETIME_SECONDS, None)];
  }

  /** Fresh keys that were never deleted keep the invariant, and they are stored exactly as available. */
  lemma WithNewKeysKeepsInvariant(p: Pool, added: set<string>, now: int)
    requires PoolInvariant(p) && added !! p.keys.Keys + p.deleted
    ensures PoolInvariant(WithNewKeys(p, added, now))
    ensures |WithNewKeys(p, added, now).keys| == |p.keys| + |added|
  {
    var q := WithNewKeys(p, added, now);
    assert q.keys.Keys == p.keys.Keys + added;
  }

  class KeygenServer {
    var keys: map<string, KeyRecord>
    var availableKeys: set<string>
    var deletedKeys: set<string>

    /** The three collections as a value. */
    function State(): Pool
      reads this
    {
      Pool(keys, availableKeys, deletedKeys)
    }

    ghost predicate Valid()
      reads this
    {
      PoolInvariant(State())
    }

    /** `initialize`: empty collections (the cron thread is not modelled). */
    constructor ()
      ensures Valid() && State() == Pool(map[], {}, {})
    {
      keys := map[];
      availableKeys := {};
      deletedKeys := {};
    }

    /**
     * `generate_keys(count)`: add `count` new keys (none for a count below
     * one), each unused and never deleted, expiring in five minutes, and
     * return the whole available set. The retry loop around `random_key` is
     * the choice of an id outside both collections; `added` names the new keys.
     */
    method GenerateKeys(count: int, now: int) returns (r: set<string>, ghost added: set<string>)
      requires Valid()
      modifies this
      ensures Valid() && r == availableKeys
      ensures |added| == (if count < 0 then 0 else count)
      ensures added !! old(keys.Keys) + old(deletedKeys)
      ensures State() == WithNewKeys(old(State()), added, now)
    {
      ghost var p0 := State();
      added := AddFreshKeys(count, now);
      WithNewKeysKeepsInvariant(p0, added, now);
      r := availableKeys;
    }

    /** The loop of `generate_keys`: `count` times, choose an id outside both collections and store it. */
    method AddFreshKeys(count: int, now: int) returns (ghost added: set<string>)
      modifies this
      ensures |added| == (if count < 0 then 0 else count)
      ensures added !! old(keys.Keys) + old(deletedKeys)
      ensures State() == WithNewKeys(old(State()), added, now)
    {
      ghost var p0 := State();
      added := {};
      WithNewKeysNone(p0, now);
      ghost var n := if count < 0 then 0 else count;
      var i := 0;
      while i < count
        invariant 0 <= i <= n && |added| == i
        invariant added !! p0.keys.Keys + p0.deleted
        invariant State() == WithNewKeys(p0, added, now)
        decreases count - i
      {
        var key := RandomKey();
        WithNewKeysStep(p0, added, key, now);
        StoreKey(key, now);
        added := added + {key};
        i := i + 1;
      }
    }

    /**
     * `random_key` together with the retry loop around it: an id that is
     * neither stored nor deleted. Which one is left to the random source.
     */
    method RandomKey() returns (key: string)
      ensures key !in keys && key !in deletedKeys
    {
      FreshIdExists(keys.Keys + deletedKeys);
      key :| key !in keys && key !in deletedKeys;
    }

    /** The body of the `generate_keys` loop once `key` is chosen: store it fresh and available. */
    method StoreKey(key: string, now: int)
      modifies this
      ensures State() == Pool(old(keys)[key := KeyRecord(now + KEY_LIFETIME_SECONDS, None)],
                              old(availableKeys) + {key}, old(deletedKeys))
    {
      keys := keys[key := KeyRecord(now + KEY_LIFETIME_SECONDS, None)];
      availableKeys := availableKeys + {key};
    }

    /** `get_available_key`: nil when none is available; otherwise some available key, now blocked for 60 seconds. */
    method GetAvailableKey(now: int) returns (out: Option<string>)
      requires Valid()
      modifies this
      ensures Valid() && deletedKeys == old(deletedKeys)
      ensures old(availableKeys) == {} ==> out == None && State() == old(State())
      ensures old(availableKeys) != {} ==>
        && out.Some? && out.value in old(availableKeys)
        && keys == old(keys)[out.value := old(keys)[out.value].(blockedTill := Some(now + BLOCK_SECONDS))]
        && availableKeys == old(availableKeys) - {out.value}
    {
      if availableKeys == {} {
        return None;
      }
      var key :| key in availableKeys;
      keys := keys[key := keys[key].(blockedTill := Some(now + BLOCK_SECONDS))];
      availableKeys := availableKeys - {key};
      out := Some(key);
    }

    /** `unblock_key`: a blocked key keeps only its expiry and is available again; otherwise nil. */
    method UnblockKey(key: string) returns (out: Option<string>)
      modifies this
      ensures (State(), out) == Unblock(old(State()), key)
      ensures old(Valid()) ==> Valid()
    {
      out := None;
      if key in keys && keys[key].blockedTill.Some? {
        keys := keys[key := KeyRecord(keys[key].expiry, None)];
        availableKeys := availableKeys + {key};
        out := Some(key);
      }
    }

    /** `delete_key`: a stored key leaves `keys` and `available_keys` and joins `deleted_keys`; otherwise nil. */
    method DeleteKey(key: string) returns (out: Option<string>)
      modifies this
      ensures (State(), out) == Delete(old(State()), key)
      ensures old(Valid()) ==> Valid()
    {
      out := None;
      if key in keys {
        keys := keys - {key};
        availableKeys := availableKeys - {key};
        deletedKeys := deletedKeys + {key};
        out := Some(key);
      }
    }

    /** `keep_alive_key`: a stored key gets five more minutes from now; its block, if any, stays. */
    method KeepAliveKey(key: string, now: int) returns (out: Option<string>)
      requires Valid()
      modifies this
      ensures Valid() && availableKeys == old(availableKeys) && deletedKeys == old(deletedKeys)
      ensures out.Some? <==> key in old(keys)
      ensures out.None? ==> keys == old(keys)
      ensures out.Some? ==>
                && out == Some(key)
                && keys == old(keys)[key := old(keys)[key].(expiry := now + KEY_LIFETIME_SECONDS)]
    {
      out := None;
      if key in keys {
        keys := keys[key := keys[key].(expiry := now + KEY_LIFETIME_SECONDS)];
        out := Some(key);
      }
    }

    /** One pass of `cron`'s loop body, for a stored key. */
    method VisitKey(key: string, now: int)
      requires key in keys
      modifies this
      ensures State() == CronVisit(old(State()), key, old(keys[key]), now)
    {
      var data := keys[key];
      if data.blockedTill.Some? && data.blockedTill.value < now {
        var _ := UnblockKey(key);
      }
      if data.expiry < now {
        var _ := DeleteKey(key);
      }
    }

    /**
     * `cron`: visit every stored key once, releasing it when its block ran out
     * and deleting it when its expiry passed. Each visit uses the record as it
     * was when the visit began, as the Ruby block parameter `data` does.
     */
    method Cron(now: int)
      requires Valid()
      modifies this
      ensures Valid()
      ensures State() == CronAfter(old(State()), old(keys.Keys), now)
    {
      ghost var p0 := State();
      VisitAll(now);
      CronKeepsInvariant(p0, now);
    }

    /** The loop of `cron` over a snapshot of the stored keys. */
    method VisitAll(now: int)
      modifies this
      ensures State() == CronAfter(old(State()), old(keys.Keys), now)
    {
      ghost var p0 := State();
      var pending := keys.Keys;
      ghost var done: set<string> := {};
      CronAfterNone(p0, now);
      while pending != {}
        invariant pending <= p0.keys.Keys && done == p0.keys.Keys - pending
        invariant State() == CronAfter(p0, done, now)
        decreases pending
      {
        var key :| key in pending;
        CronVisitStep(p0, done, key, now);
        VisitKey(key, now);
        pending := pending - {key};
        done := done + {key};
      }
    }
  }
}
