/**
 * The key lease manager of key_server/key_manager.rb: a table from id to
 * mutable `KeyObject`, the set of available ids, and a min-heap of
 * `[next_cleanup_timestamp, id]` entries. Each public operation runs as one
 * atomic step (the Ruby code holds a monitor for its whole body); the clock
 * reading is the parameter `now`.
 */
module KeyManagers {
  import opened Wrappers
  import opened KeyObjects
  import opened MinHeaps
  import opened LeaseRules
  import opened FreshIds

  class KeyManager {
    var keys: map<string, KeyObject>
    var availableKeyIds: set<string>
    var expiryHeap: MinHeap<string>
    /** The record table as values: the current state of every record object. */
    ghost var table: Table

    /** The entries of the expiry heap. */
    ghost function Entries(): multiset<Entry<string>>
      reads this, expiryHeap
    {
      multiset(expiryHeap.heap)
    }

    /**
     * The structural invariant, which holds in the middle of a sweep too:
     * each record object is stored under its own id (so distinct ids never
     * share an object) and `table` is the state of those objects.
     */
    ghost predicate Coherent()
      reads this, expiryHeap, keys.Values
    {
      && expiryHeap.Valid()
      && availableKeyIds <= keys.Keys
      && keys.Keys == table.Keys
      && (forall id :: id in keys ==> keys[id].id == id && keys[id].State() == table[id])
    }

    /** The invariant between public operations. */
    ghost predicate Valid()
      reads this, expiryHeap, keys.Values
    {
      Coherent() && Consistent(table, availableKeyIds)
    }

    /** `initialize`: no keys, nothing available, an empty heap (the cleanup thread is not modelled). */
    constructor ()
      ensures Valid() && fresh(expiryHeap)
      ensures table == map[] && availableKeyIds == {} && Entries() == multiset{}
    {
      keys := map[];
      availableKeyIds := {};
      expiryHeap := new MinHeap();
      table := map[];
    }

    /** `generate_key`: a fresh id, available, expiring five minutes from now. */
    method GenerateKey(now: int) returns (id: string)
      requires Valid()
      modifies this, expiryHeap
      ensures Valid() && expiryHeap == old(expiryHeap)
      ensures id !in old(table)
      ensures table == old(table)[id := NewKeyState(now + KEY_INITIAL_EXPIRY_SECONDS, now)]
      ensures availableKeyIds == old(availableKeyIds) + {id}
      ensures Entries() == old(Entries()) + multiset{Entry(now + KEY_INITIAL_EXPIRY_SECONDS, id)}
      ensures id in keys && fresh(keys[id]) && keys == old(keys)[id := keys[id]]
    {
      FreshIdExists(keys.Keys);
      id :| id !in keys;
      var key := new KeyObject(id, now + KEY_INITIAL_EXPIRY_SECONDS, now);
      ConsistentAfterGenerate(table, availableKeyIds, id, key.State());
      keys := keys[id := key];
      table := table[id := key.State()];
      availableKeyIds := availableKeyIds + {id};
      expiryHeap.Insert(Entry(NextCleanupTimestamp(key.State()), id));
    }

    /**
     * `get_available_key`: nil when nothing is available; otherwise some
     * available id, which becomes blocked with a fresh five-minute expiry and
     * is queued for the end of its 60-second block window.
     */
    method GetAvailableKey(now: int) returns (r: Option<string>)
      requires Valid()
      modifies this, expiryHeap, keys.Values
      ensures Valid() && expiryHeap == old(expiryHeap) && keys == old(keys)
      ensures old(availableKeyIds) == {} ==>
        r == None && table == old(table) && availableKeyIds == old(availableKeyIds) && Entries() == old(Entries())
      ensures old(availableKeyIds) != {} ==>
        && r.Some? && r.value in old(availableKeyIds)
        && table == old(table)[r.value := Served(old(table)[r.value], now)]
        && availableKeyIds == old(availableKeyIds) - {r.value}
        && Entries() == old(Entries()) + multiset{Entry(now + KEY_BLOCKED_AUTO_RELEASE_SECONDS, r.value)}
    {
      if availableKeyIds == {} {
        return None;
      }
      var id :| id in availableKeyIds;
      ConsistentAfterServe(table, availableKeyIds, id, now);
      ServedIsDueAtBlockWindow(table[id], now);
      BlockRecord(id, now);
      expiryHeap.Insert(Entry(NextCleanupTimestamp(keys[id].State()), id));
      availableKeyIds := availableKeyIds - {id};
      r := Some(id);
    }

    /**
     * `unblock_key`: false for an unknown id or a record that is not blocked
     * (or has expired); otherwise the record becomes available with a fresh
     * five-minute expiry and is queued for it. Only the structural invariant
     * is needed, since the sweep of `perform_cleanup` calls it too.
     */
    method UnblockKey(id: string, now: int) returns (ok: bool)
      requires Coherent()
      modifies this, expiryHeap, keys.Values
      ensures Coherent() && expiryHeap == old(expiryHeap) && keys == old(keys)
      ensures ok <==> id in old(table) && old(table)[id].IsBlocked(now)
      ensures !ok ==> table == old(table) && availableKeyIds == old(availableKeyIds) && Entries() == old(Entries())
      ensures ok ==>
        && table == old(table)[id := Released(old(table)[id], now)]
        && availableKeyIds == old(availableKeyIds) + {id}
        && Entries() == old(Entries()) + multiset{Entry(now + KEY_INITIAL_EXPIRY_SECONDS, id)}
      ensures old(Valid()) ==> Valid()
    {
      if id !in keys {
        return false;
      }
      var key := keys[id];
      if key.status == Blocked && !(key.expiresAt <= now) {
        ghost var t0, a0 := table, availableKeyIds;
        ReleasedIsDueAtExpiry(table[id], now);
        ReleaseRecord(id, now);
        expiryHeap.Insert(Entry(NextCleanupTimestamp(key.State()), id));
        availableKeyIds := availableKeyIds + {id};
        if old(Valid()) {
          ConsistentAfterRelease(t0, a0, id, now);
        }
        ok := true;
      } else {
        ok := false;
      }
    }

    /**
     * `delete_key`: false for an unknown id; otherwise the record leaves the
     * table and the available set. Its heap entries stay behind and are
     * skipped by the sweep.
     */
    method DeleteKey(id: string) returns (ok: bool)
      requires Valid()
      modifies this, keys.Values
      ensures Valid() && expiryHeap == old(expiryHeap) && Entries() == old(Entries())
      ensures ok <==> id in old(table)
      ensures table == old(table) - {id} && availableKeyIds == old(availableKeyIds) - {id}
    {
      if id !in keys {
        return false;
      }
      var key := keys[id];
      ConsistentAfterDelete(table, availableKeyIds, id);
      keys := keys - {id};
      table := table - {id};
      availableKeyIds := availableKeyIds - {id};
      key.status := Deleted;
      key.MarkStaleInHeap();
      forall j | j in keys
        ensures keys[j].id == j && keys[j].State() == table[j]
      {
        assert old(keys[j].id) == j;
      }
      ok := true;
    }

    /**
     * `keep_alive`: false for an unknown or inactive id; otherwise expiry is
     * pushed to five minutes from now and the record is queued again (for its
     * block window if that ends first).
     */
    method KeepAlive(id: string, now: int) returns (ok: bool)
      requires Valid()
      modifies this, expiryHeap, keys.Values
      ensures Valid() && expiryHeap == old(expiryHeap) && keys == old(keys)
      ensures ok <==> id in old(table) && old(table)[id].IsActive()
      ensures ok <==> id in old(table)
      ensures availableKeyIds == old(availableKeyIds)
      ensures !ok ==> table == old(table) && Entries() == old(Entries())
      ensures ok ==>
        && table == old(table)[id := Refreshed(old(table)[id], now)]
        && Entries() == old(Entries()) + multiset{Entry(NextCleanupTimestamp(table[id]), id)}
    {
      if !(id in keys && keys[id].status != Deleted && keys[id].status != Expired) {
        return false;
      }
      ConsistentAfterRefresh(table, availableKeyIds, id, now);
      RefreshRecord(id, now);
      expiryHeap.Insert(Entry(NextCleanupTimestamp(keys[id].State()), id));
      ok := true;
    }

    /** `reset_state`: an empty table, an empty available set and a new, empty heap. */
    method ResetState()
      requires Valid()
      modifies this
      ensures Valid() && fresh(expiryHeap)
      ensures table == map[] && availableKeyIds == {} && Entries() == multiset{}
    {
      keys := map[];
      availableKeyIds := {};
      expiryHeap := new MinHeap();
      table := map[];
    }

    /** `delete_key_internal`: drop the record and its availability, if present. */
    method DeleteKeyInternal(id: string)
      requires Coherent()
      modifies this
      ensures Coherent() && expiryHeap == old(expiryHeap) && Entries() == old(Entries())
      ensures table == old(table) - {id} && availableKeyIds == old(availableKeyIds) - {id}
      ensures keys.Values <= old(keys.Values)
    {
      if id in keys {
        keys := keys - {id};
        table := table - {id};
        availableKeyIds := availableKeyIds - {id};
      }
    }

    /** `key_status`: the status of a stored record, or nil. */
    function KeyStatus(id: string): (r: Option<Status>)
      requires Valid()
      reads this, expiryHeap, keys.Values
      ensures r.Some? <==> id in table
      ensures r.Some? ==> r.value == table[id].status
      ensures r == Some(Available) <==> id in availableKeyIds
      ensures r != Some(Deleted) && r != Some(Expired)
    {
      if id in keys then Some(keys[id].status) else None
    }

    /** `available_keys_count`: the number of available records. */
    function AvailableKeysCount(): (n: nat)
      requires Valid()
      reads this, expiryHeap, keys.Values
      ensures n == |set id | id in table && table[id].status == Available|
      ensures n <= |table|
    {
      AvailableIsStatus(table, availableKeyIds);
      |availableKeyIds|
    }

    /** `total_keys_count`: the number of stored records. */
    function TotalKeysCount(): (n: nat)
      requires Valid()
      reads this, expiryHeap, keys.Values
      ensures n == |table|
    {
      assert keys.Keys == table.Keys;
      |keys|
    }

    /**
     * `perform_cleanup`, with one clock reading `now` for the whole run. The
     * scan loop pops every due heap entry, in priority order, and handles it
     * as `SweepEntry` says; the deletion pass then removes each record the
     * scan marked expired. The ghost results are the popped entries, in order,
     * and the entries the scan queued.
     */
    method PerformCleanup(now: int) returns (ghost popped: seq<Entry<string>>, ghost pushed: seq<Entry<string>>)
      requires Valid()
      modifies this, expiryHeap, keys.Values
      ensures Valid() && expiryHeap == old(expiryHeap)
      ensures var w := SweepAll(Sweep(old(table), old(availableKeyIds), [], []), popped, now);
        (table, availableKeyIds) == DeleteExpired(w.table, w.available, w.batch) && pushed == w.pushed
      ensures Entries() + multiset(popped) == old(Entries()) + multiset(pushed)
      ensures InPriorityOrder(popped) && forall e :: e in popped ==> e.priority <= now
      ensures forall e: Entry<string> :: e.priority <= now ==> multiset(popped)[e] == old(Entries())[e]
      ensures forall e :: e in Entries() ==> now < e.priority
      ensures keys.Values <= old(keys.Values)
    {
      ghost var t0, a0 := table, availableKeyIds;
      var batch;
      batch, popped, pushed := ScanDueEntries(now);
      SweepKeepsConsistency(t0, a0, popped, now);
      DeleteBatch(batch);
      forall e: Entry<string> | e.priority <= now
        ensures multiset(popped)[e] == old(Entries())[e]
      {
        assert e !in Entries() && e !in pushed;
        assert (Entries() + multiset(popped))[e] == (old(Entries()) + multiset(pushed))[e];
      }
    }

    /** The scan loop of `perform_cleanup`: pop and handle entries while the minimum is due. */
    method ScanDueEntries(now: int) returns (batch: seq<string>, ghost popped: seq<Entry<string>>, ghost pushed: seq<Entry<string>>)
      requires Coherent()
      modifies this, expiryHeap, keys.Values
      ensures Coherent() && expiryHeap == old(expiryHeap) && keys == old(keys)
      ensures SweepAll(Sweep(old(table), old(availableKeyIds), [], []), popped, now) ==
              Sweep(table, availableKeyIds, batch, pushed)
      ensures ScanBookkeeping(Entries(), old(Entries()), popped, pushed, now)
      ensures forall e :: e in Entries() ==> now < e.priority
    {
      batch, popped, pushed := [], [], [];
      ghost var w0 := Sweep(table, availableKeyIds, [], []);
      var minEntry := expiryHeap.Peek();
      while minEntry.Some? && minEntry.value.priority <= now
        invariant Coherent() && expiryHeap == old(expiryHeap) && keys == old(keys)
        invariant minEntry == expiryHeap.Peek()
        invariant SweepAll(w0, popped, now) == Sweep(table, availableKeyIds, batch, pushed)
        invariant ScanBookkeeping(Entries(), old(Entries()), popped, pushed, now)
        decreases |old(Entries())| - |popped|
      {
        batch, popped, pushed := ScanStep(now, w0, old(Entries()), batch, popped, pushed);
        SubMultisetSize(multiset(popped), old(Entries()));
        minEntry := expiryHeap.Peek();
      }
    }

    /** One pass of the scan loop: `extract_min`, then handle the popped entry. */
    method ScanStep(now: int, ghost w0: Sweep, ghost original: multiset<Entry<string>>, batch: seq<string>,
                    ghost popped: seq<Entry<string>>, ghost pushed: seq<Entry<string>>)
      returns (batch': seq<string>, ghost popped': seq<Entry<string>>, ghost pushed': seq<Entry<string>>)
      requires Coherent() && |expiryHeap.heap| > 0 && expiryHeap.heap[0].priority <= now && w0.pushed == []
      requires SweepAll(w0, popped, now) == Sweep(table, availableKeyIds, batch, pushed)
      requires ScanBookkeeping(Entries(), original, popped, pushed, now)
      modifies this, expiryHeap, keys.Values
      ensures Coherent() && expiryHeap == old(expiryHeap) && keys == old(keys)
      ensures SweepAll(w0, popped', now) == Sweep(table, availableKeyIds, batch', pushed')
      ensures ScanBookkeeping(Entries(), original, popped', pushed', now)
      ensures |popped'| == |popped| + 1
    {
      ghost var current := Entries();
      var extracted := expiryHeap.ExtractMin();
      var e := extracted.value;
      ghost var mid := Entries();
      popped' := popped + [e];
      batch', pushed' := SweepStep(e, now, batch, pushed);
      assert popped'[..|popped|] == popped;
      SweepPushesOnlyLaterEntries(w0, popped', now);
      ScanBookkeepingStep(current, mid, Entries(), original, popped, pushed, pushed', e, now);
    }

    /** The deletion pass of `perform_cleanup`: remove each batched id whose record is still expired. */
    method DeleteBatch(batch: seq<string>)
      requires Coherent()
      modifies this
      ensures Coherent() && expiryHeap == old(expiryHeap) && Entries() == old(Entries())
      ensures (table, availableKeyIds) == DeleteExpired(old(table), old(availableKeyIds), batch)
      ensures keys.Values <= old(keys.Values)
    {
      for i := 0 to |batch|
        invariant Coherent() && expiryHeap == old(expiryHeap) && Entries() == old(Entries())
        invariant keys.Values <= old(keys.Values)
        invariant (table, availableKeyIds) == DeleteExpired(old(table), old(availableKeyIds), batch[..i])
      {
        assert batch[..i + 1][..i] == batch[..i];
        var id := batch[i];
        if id in keys && keys[id].status == Expired {
          DeleteKeyInternal(id);
        }
      }
      assert batch[..|batch|] == batch;
    }

    /**
     * One pass of the scan loop of `perform_cleanup` on the popped entry `e`:
     * the state of the manager follows `SweepEntry`; `batch` is the list of
     * ids marked for deletion and the ghost `pushed` the entries queued.
     */
    method SweepStep(e: Entry<string>, now: int, batch: seq<string>, ghost pushed: seq<Entry<string>>)
      returns (batch': seq<string>, ghost pushed': seq<Entry<string>>)
      requires Coherent()
      modifies this, expiryHeap, keys.Values
      ensures Coherent() && expiryHeap == old(expiryHeap) && keys == old(keys)
      ensures Sweep(table, availableKeyIds, batch', pushed') ==
              SweepEntry(Sweep(old(table), old(availableKeyIds), batch, pushed), e, now)
      ensures Entries() + multiset(pushed) == old(Entries()) + multiset(pushed')
    {
      batch', pushed' := batch, pushed;
      var id := e.value;
      if id !in keys {
        return;
      }
      var key := keys[id];
      if key.isStaleInHeap {
        ResetStaleRecord(id);
      } else if key.State().IsExpired(now) {
        ExpireRecord(id);
        batch' := batch + [id];
      } else if key.status == Blocked && key.State().ShouldAutoReleaseBlocked(now) {
        var ok := UnblockKey(id, now);
        if ok {
          pushed' := pushed + [Entry(now + KEY_INITIAL_EXPIRY_SECONDS, id)];
        }
      }
    }

    /** `reset_stale_in_heap` on record `id`, as the scan does for a stale entry. */
    method ResetStaleRecord(id: string)
      requires Coherent() && id in keys
      modifies this, keys[id]
      ensures Coherent() && keys == old(keys) && availableKeyIds == old(availableKeyIds)
      ensures expiryHeap == old(expiryHeap) && Entries() == old(Entries())
      ensures table == old(table)[id := old(table)[id].(staleInHeap := false)]
    {
      var key := keys[id];
      key.ResetStaleInHeap();
      table := table[id := key.State()];
      forall j | j in keys
        ensures keys[j].id == j && keys[j].State() == table[j]
      {
        if j != id {
          assert old(keys[j].id) == j;
        }
      }
    }

    /** The scan's `key.status = :expired` on record `id`. */
    method ExpireRecord(id: string)
      requires Coherent() && id in keys
      modifies this, keys[id]
      ensures Coherent() && keys == old(keys) && availableKeyIds == old(availableKeyIds)
      ensures expiryHeap == old(expiryHeap) && Entries() == old(Entries())
      ensures table == old(table)[id := old(table)[id].(status := Expired)]
    {
      var key := keys[id];
      key.status := Expired;
      table := table[id := key.State()];
      forall j | j in keys
        ensures keys[j].id == j && keys[j].State() == table[j]
      {
        if j != id {
          assert old(keys[j].id) == j;
        }
      }
    }

    /** The attribute writes of `get_available_key` on record `id`. */
    method BlockRecord(id: string, now: int)
      requires Coherent() && id in keys
      modifies this, keys[id]
      ensures Coherent() && keys == old(keys) && availableKeyIds == old(availableKeyIds)
      ensures expiryHeap == old(expiryHeap) && Entries() == old(Entries())
      ensures table == old(table)[id := Served(old(table)[id], now)]
    {
      var key := keys[id];
      key.status := Blocked;
      key.blockedAt := Some(now);
      key.lastActiveAt := now;
      key.expiresAt := now + KEY_INITIAL_EXPIRY_SECONDS;
      key.MarkStaleInHeap();
      table := table[id := key.State()];
      forall j | j in keys
        ensures keys[j].id == j && keys[j].State() == table[j]
      {
        if j != id {
          assert old(keys[j].id) == j;
        }
      }
    }

    /** The attribute writes of a successful `unblock_key` on record `id`. */
    method ReleaseRecord(id: string, now: int)
      requires Coherent() && id in keys
      modifies this, keys[id]
      ensures Coherent() && keys == old(keys) && availableKeyIds == old(availableKeyIds)
      ensures expiryHeap == old(expiryHeap) && Entries() == old(Entries())
      ensures table == old(table)[id := Released(old(table)[id], now)]
    {
      var key := keys[id];
      key.status := Available;
      key.blockedAt := None;
      key.lastActiveAt := now;
      key.expiresAt := now + KEY_INITIAL_EXPIRY_SECONDS;
      key.MarkStaleInHeap();
      table := table[id := key.State()];
      forall j | j in keys
        ensures keys[j].id == j && keys[j].State() == table[j]
      {
        if j != id {
          assert old(keys[j].id) == j;
        }
      }
    }

    /** The attribute writes of a successful `keep_alive` on record `id`. */
    method RefreshRecord(id: string, now: int)
      requires Coherent() && id in keys
      modifies this, keys[id]
      ensures Coherent() && keys == old(keys) && availableKeyIds == old(availableKeyIds)
      ensures expiryHeap == old(expiryHeap) && Entries() == old(Entries())
      ensures table == old(table)[id := Refreshed(old(table)[id], now)]
    {
      var key := keys[id];
      key.lastActiveAt := now;
      key.expiresAt := now + KEY_INITIAL_EXPIRY_SECONDS;
      key.MarkStaleInHeap();
      table := table[id := key.State()];
      forall j | j in keys
        ensures keys[j].id == j && keys[j].State() == table[j]
      {
        if j != id {
          assert old(keys[j].id) == j;
        }
      }
    }
  }
}
