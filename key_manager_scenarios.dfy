/**
 * Runs of the key lease manager from a fresh instance, stated with the
 * manager's own contracts. They pin down what the single stale flag per
 * record (key_server/key_object.rb:70-77, key_server/key_manager.rb:215-218)
 * does to the 60-second auto-release: the sweep discards the first entry of
 * a key it meets after the flag was set, whichever entry that is.
 */
module KeyManagerScenarios {
  import opened Wrappers
  import opened KeyObjects
  import opened MinHeaps
  import opened LeaseRules
  import opened KeyManagers

  /** When `x` is the only due entry, a cleanup pops exactly `x`. */
  lemma PopsOnlyDueEntry(popped: seq<Entry<string>>, entries: multiset<Entry<string>>, x: Entry<string>, now: int)
    requires forall e :: e in popped ==> e.priority <= now
    requires forall e: Entry<string> :: e.priority <= now ==> multiset(popped)[e] == entries[e]
    requires x.priority <= now && entries[x] == 1
    requires forall e :: e in entries && e != x ==> now < e.priority
    ensures popped == [x]
  {
    forall e
      ensures multiset(popped)[e] == multiset{x}[e]
    {
      if e.priority <= now {
        if e != x {
          assert e !in entries;
        }
      } else {
        assert e !in popped;
      }
    }
    assert multiset(popped) == multiset{x};
    assert |popped| == |multiset(popped)| == 1;
    assert popped[0] in multiset(popped);
  }

  /** A sweep meeting one entry of a record whose stale flag is set only clears the flag. */
  lemma SweepOfStaleEntry(t: Table, a: set<string>, e: Entry<string>, now: int)
    requires e.value in t && t[e.value].staleInHeap
    ensures var w := SweepAll(Sweep(t, a, [], []), [e], now);
      && DeleteExpired(w.table, w.available, w.batch) == (t[e.value := t[e.value].(staleInHeap := false)], a)
      && w.pushed == []
  {
    assert [e][..0] == [];
  }

  /** A sweep meeting the block-window entry of a fresh, blocked record releases it and queues its expiry. */
  lemma SweepOfDueBlock(t: Table, a: set<string>, e: Entry<string>, now: int)
    requires e.value in t && !t[e.value].staleInHeap && t[e.value].IsBlocked(now)
    requires t[e.value].ShouldAutoReleaseBlocked(now)
    ensures var w := SweepAll(Sweep(t, a, [], []), [e], now);
      && DeleteExpired(w.table, w.available, w.batch) == (t[e.value := Released(t[e.value], now)], a + {e.value})
      && w.pushed == [Entry(now + KEY_INITIAL_EXPIRY_SECONDS, e.value)]
  {
    assert [e][..0] == [];
    ReleasedIsDueAtExpiry(t[e.value], now);
  }

  /** A sweep meeting one entry of a fresh, expired record marks it, and the deletion pass removes it. */
  lemma SweepOfExpiredEntry(t: Table, a: set<string>, e: Entry<string>, now: int)
    requires e.value in t && !t[e.value].staleInHeap && t[e.value].IsExpired(now)
    ensures var w := SweepAll(Sweep(t, a, [], []), [e], now);
      DeleteExpired(w.table, w.available, w.batch) == (t - {e.value}, a - {e.value})
  {
    assert [e][..0] == [];
    var id := e.value;
    var t1 := t[id := t[id].(status := Expired)];
    assert DeleteExpired(t1, a, [id]) == (t1 - {id}, a - {id}) by {
      assert [id][..0] == [];
    }
    assert t1 - {id} == t - {id};
  }

  /** A cleanup at `now` when `e` is the only due entry: the sweep meets `e` alone. */
  method CleanUpOneDue(km: KeyManager, e: Entry<string>, now: int)
    requires km.Valid() && e.priority <= now && km.Entries()[e] == 1
    requires forall x :: x in km.Entries() && x != e ==> now < x.priority
    modifies km, km.expiryHeap, km.keys.Values
    ensures km.Valid() && km.expiryHeap == old(km.expiryHeap) && km.keys.Values <= old(km.keys.Values)
    ensures var w := SweepAll(Sweep(old(km.table), old(km.availableKeyIds), [], []), [e], now);
      && (km.table, km.availableKeyIds) == DeleteExpired(w.table, w.available, w.batch)
      && km.Entries() + multiset{e} == old(km.Entries()) + multiset(w.pushed)
  {
    ghost var popped, pushed := km.PerformCleanup(now);
    PopsOnlyDueEntry(popped, old(km.Entries()), e, now);
  }

  /** A new manager with one key, generated at `generatedAt` and served at `servedAt`. */
  method ServedKey(generatedAt: int, servedAt: int) returns (km: KeyManager, id: string)
    ensures fresh(km) && fresh(km.expiryHeap) && km.Valid()
    ensures forall o :: o in km.keys.Values ==> fresh(o)
    ensures km.table == map[id := Served(NewKeyState(generatedAt + KEY_INITIAL_EXPIRY_SECONDS, generatedAt), servedAt)]
    ensures km.availableKeyIds == {}
    ensures km.Entries() == multiset{Entry(generatedAt + KEY_INITIAL_EXPIRY_SECONDS, id),
                                     Entry(servedAt + KEY_BLOCKED_AUTO_RELEASE_SECONDS, id)}
  {
    km := new KeyManager();
    id := km.GenerateKey(generatedAt);
    var served := km.GetAvailableKey(servedAt);
    assert served == Some(id);
  }

  /**
   * Generate at 0, serve at 0, clean up at 61: the only due entry is the
   * block-window entry queued by the serve, and the stale flag the serve set
   * makes the sweep discard it. The key is still blocked after its window,
   * although key_server/spec/key_manager_spec.rb:341-358 expects the cleanup
   * to release it.
   */
  method StaleFlagSkipsBlockWindow() returns (status: Option<Status>, count: nat)
    ensures status == Some(Blocked) && count == 0
  {
    var km, id := ServedKey(0, 0);
    ghost var t, a := km.table, km.availableKeyIds;
    CleanUpOneDue(km, Entry(60, id), 61);
    SweepOfStaleEntry(t, a, Entry(60, id), 61);
    status := km.KeyStatus(id);
    count := km.AvailableKeysCount();
  }

  /**
   * Generate at 0, serve at 250, clean up at 300: the cleanup meets the
   * generation entry, which only clears the stale flag; the key stays
   * blocked and its block-window entry stays queued.
   */
  method StaleFlagSpentOnGenerationEntry() returns (km: KeyManager, id: string)
    ensures fresh(km) && fresh(km.expiryHeap) && km.Valid()
    ensures forall o :: o in km.keys.Values ==> fresh(o)
    ensures id in km.table && km.table[id].status == Blocked && !km.table[id].staleInHeap
    ensures km.table[id].blockedAt == Some(250) && km.table[id].expiresAt == 550
    ensures km.availableKeyIds == {}
    ensures km.Entries() == multiset{Entry(310, id)}
  {
    km, id := ServedKey(0, 250);
    ghost var t, a, entries := km.table, km.availableKeyIds, km.Entries();
    CleanUpOneDue(km, Entry(300, id), 300);
    SweepOfStaleEntry(t, a, Entry(300, id), 300);
    assert km.Entries() + multiset{Entry(300, id)} == entries;
  }

  /**
   * Generate at 0, serve at 250, clean up at 300 and at 310: once the stale
   * flag has been spent on the generation entry, the second cleanup meets
   * the block-window entry and releases the key.
   */
  method ReleaseAfterStaleEntryIsSpent() returns (status: Option<Status>, count: nat)
    ensures status == Some(Available) && count == 1
  {
    var km, id := StaleFlagSpentOnGenerationEntry();
    ghost var t, a := km.table, km.availableKeyIds;
    CleanUpOneDue(km, Entry(310, id), 310);
    SweepOfDueBlock(t, a, Entry(310, id), 310);
    status := km.KeyStatus(id);
    count := km.AvailableKeysCount();
    assert km.availableKeyIds == {id};
  }

  /** Generate at 0, clean up at 300: the key expires at exactly 300 and is removed. */
  method ExpiryRemovesKey() returns (status: Option<Status>, total: nat)
    ensures status == None && total == 0
  {
    var km := new KeyManager();
    var id := km.GenerateKey(0);
    ghost var t, a := km.table, km.availableKeyIds;
    CleanUpOneDue(km, Entry(300, id), 300);
    SweepOfExpiredEntry(t, a, Entry(300, id), 300);
    status := km.KeyStatus(id);
    total := km.TotalKeysCount();
  }
}
