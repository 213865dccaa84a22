/**
 * The rules of the key lease manager (key_server/key_manager.rb) stated on
 * values: the record table as a map from id to `KeyState`, the available set,
 * and the transitions each operation applies to one record. The class
 * `KeyManager` is proved to follow these rules; the lemmas here say what the
 * rules guarantee.
 */
module LeaseRules {
  import opened Wrappers
  import opened KeyObjects
  import opened MinHeaps

  /** `KEY_INITIAL_EXPIRY_SECONDS`: five minutes. */
  const KEY_INITIAL_EXPIRY_SECONDS: int := 5 * 60
  /** `KEY_BLOCKED_AUTO_RELEASE_SECONDS` */
  const KEY_BLOCKED_AUTO_RELEASE_SECONDS: int := 60

  type Table = map<string, KeyState>

  /**
   * `calculate_next_cleanup_timestamp`: the earlier of expiry and the end of
   * the block window for a blocked key with a block time, otherwise expiry.
   */
  function NextCleanupTimestamp(s: KeyState): (t: int)
    ensures t <= s.expiresAt
    ensures s.status == Blocked && s.blockedAt.Some? ==>
      t <= s.blockedAt.value + KEY_BLOCKED_AUTO_RELEASE_SECONDS &&
      (t == s.expiresAt || t == s.blockedAt.value + KEY_BLOCKED_AUTO_RELEASE_SECONDS)
    ensures !(s.status == Blocked && s.blockedAt.Some?) ==> t == s.expiresAt
  {
    if s.status == Blocked && s.blockedAt.Some? then
      var releaseAt := s.blockedAt.value + KEY_BLOCKED_AUTO_RELEASE_SECONDS;
      if s.expiresAt < releaseAt then s.expiresAt else releaseAt
    else
      s.expiresAt
  }

  /** The record after `get_available_key` serves it at `now`. */
  function Served(s: KeyState, now: int): KeyState {
    s.(status := Blocked, blockedAt := Some(now), lastActiveAt := now,
       expiresAt := now + KEY_INITIAL_EXPIRY_SECONDS, staleInHeap := true)
  }

  /** The record after a successful `unblock_key` at `now`. */
  function Released(s: KeyState, now: int): KeyState {
    s.(status := Available, blockedAt := None, lastActiveAt := now,
       expiresAt := now + KEY_INITIAL_EXPIRY_SECONDS, staleInHeap := true)
  }

  /** The record after a successful `keep_alive` at `now`. */
  function Refreshed(s: KeyState, now: int): KeyState {
    s.(lastActiveAt := now, expiresAt := now + KEY_INITIAL_EXPIRY_SECONDS, staleInHeap := true)
  }

  /** A served key is queued for the end of its 60-second block window, before its expiry. */
  lemma ServedIsDueAtBlockWindow(s: KeyState, now: int)
    ensures NextCleanupTimestamp(Served(s, now)) == now + KEY_BLOCKED_AUTO_RELEASE_SECONDS
    ensures Served(s, now).IsBlocked(now) && !Served(s, now).IsAvailable(now)
    ensures !Served(s, now).ShouldAutoReleaseBlocked(now + 59) && Served(s, now).ShouldAutoReleaseBlocked(now + 60)
  {
  }

  /** A released key is available again and queued for its new expiry. */
  lemma ReleasedIsDueAtExpiry(s: KeyState, now: int)
    ensures NextCleanupTimestamp(Released(s, now)) == now + KEY_INITIAL_EXPIRY_SECONDS
    ensures Released(s, now).IsAvailable(now) && !Released(s, now).IsBlocked(now)
    ensures Released(s, now).expiresAt > now
  {
  }

  /**
   * Keep-alive extends expiry without touching status or block time, so a
   * blocked key stays queued for the end of its original block window
   * whenever that comes before the new expiry.
   */
  lemma RefreshedKeepsBlockWindow(s: KeyState, now: int)
    requires s.status == Blocked && s.blockedAt.Some?
    requires s.blockedAt.value + KEY_BLOCKED_AUTO_RELEASE_SECONDS <= now + KEY_INITIAL_EXPIRY_SECONDS
    ensures Refreshed(s, now).status == s.status && Refreshed(s, now).blockedAt == s.blockedAt
    ensures NextCleanupTimestamp(Refreshed(s, now)) == s.blockedAt.value + KEY_BLOCKED_AUTO_RELEASE_SECONDS
  {
  }

  /**
   * The manager's invariant between operations: every record in the table is
   * available or blocked, it has a block time exactly when it is blocked, and
   * the available set holds exactly the ids of the available records.
   */
  ghost predicate Consistent(t: Table, a: set<string>) {
    && a <= t.Keys
    && (forall id :: id in t ==> t[id].status == Available || t[id].status == Blocked)
    && (forall id :: id in t ==> (t[id].blockedAt.Some? <==> t[id].status == Blocked))
    && (forall id :: id in t ==> (id in a <==> t[id].status == Available))
  }

  lemma ConsistentAfterGenerate(t: Table, a: set<string>, id: string, s: KeyState)
    requires Consistent(t, a) && id !in t
    requires s.status == Available && s.blockedAt.None?
    ensures Consistent(t[id := s], a + {id}) && id !in a
  {
  }

  lemma ConsistentAfterServe(t: Table, a: set<string>, id: string, now: int)
    requires Consistent(t, a) && id in a
    ensures Consistent(t[id := Served(t[id], now)], a - {id})
  {
  }

  lemma ConsistentAfterRelease(t: Table, a: set<string>, id: string, now: int)
    requires Consistent(t, a) && id in t && t[id].status == Blocked
    ensures Consistent(t[id := Released(t[id], now)], a + {id})
  {
  }

  lemma ConsistentAfterRefresh(t: Table, a: set<string>, id: string, now: int)
    requires Consistent(t, a) && id in t
    ensures Consistent(t[id := Refreshed(t[id], now)], a)
  {
  }

  lemma ConsistentAfterDelete(t: Table, a: set<string>, id: string)
    requires Consistent(t, a)
    ensures Consistent(t - {id}, a - {id})
  {
  }

  /** Under the invariant the available set is exactly the set of available records. */
  lemma AvailableIsStatus(t: Table, a: set<string>)
    requires Consistent(t, a)
    ensures a == set id | id in t && t[id].status == Available
    ensures |a| <= |t|
  {
    assert t.Keys == a + (t.Keys - a);
  }

  /**
   * The invariant in the middle of a sweep: records may also be marked
   * expired (and may then still sit in the available set), but every such
   * record is queued in `pending` for final deletion.
   */
  ghost predicate Reconcilable(t: Table, a: set<string>, pending: seq<string>) {
    && a <= t.Keys
    && (forall id :: id in t ==> t[id].status != Deleted)
    && (forall id :: id in t && t[id].status == Available ==> id in a && t[id].blockedAt.None?)
    && (forall id :: id in t && t[id].status == Blocked ==> id !in a && t[id].blockedAt.Some?)
    && (forall id :: id in t && t[id].status == Expired ==> id in pending)
  }

  lemma ConsistentIsReconcilableWithNothingPending(t: Table, a: set<string>)
    ensures Consistent(t, a) <==> Reconcilable(t, a, [])
  {
  }

  /** The bookkeeping of one sweep pass over the popped heap entries. */
  datatype Sweep = Sweep(table: Table, available: set<string>, batch: seq<string>, pushed: seq<Entry<string>>)

  /** `unblock_key` on the sweep's state: applies only to a record that is blocked and unexpired. */
  function UnblockInSweep(w: Sweep, id: string, now: int): Sweep {
    if id in w.table && w.table[id].IsBlocked(now) then
      var r := Released(w.table[id], now);
      w.(table := w.table[id := r], available := w.available + {id},
         pushed := w.pushed + [Entry(NextCleanupTimestamp(r), id)])
    else
      w
  }

  /**
   * What the sweep does with one popped entry: skip an id that is gone;
   * discard the entry if the record's stale flag is set (clearing the flag);
   * otherwise mark an expired record for deletion; otherwise release a
   * blocked record whose block window is over.
   */
  function SweepEntry(w: Sweep, e: Entry<string>, now: int): Sweep {
    var id := e.value;
    if id !in w.table then w
    else
      var s := w.table[id];
      if s.staleInHeap then
        w.(table := w.table[id := s.(staleInHeap := false)])
      else if s.IsExpired(now) then
        w.(table := w.table[id := s.(status := Expired)], batch := w.batch + [id])
      else if s.status == Blocked && s.ShouldAutoReleaseBlocked(now) then
        UnblockInSweep(w, id, now)
      else
        w
  }

  /** The sweep over the entries popped so far, in the order they were popped. */
  function SweepAll(w: Sweep, es: seq<Entry<string>>, now: int): Sweep
    decreases |es|
  {
    if |es| == 0 then w
    else SweepEntry(SweepAll(w, es[..|es| - 1], now), es[|es| - 1], now)
  }

  /** Every entry a sweep at `now` queues lies in the future: the sweep never meets its own entries. */
  lemma {:induction false} SweepPushesOnlyLaterEntries(w: Sweep, es: seq<Entry<string>>, now: int)
    ensures var w' := SweepAll(w, es, now);
      |w.pushed| <= |w'.pushed| && w'.pushed[..|w.pushed|] == w.pushed &&
      forall i :: |w.pushed| <= i < |w'.pushed| ==> now < w'.pushed[i].priority
    decreases |es|
  {
    if |es| > 0 {
      SweepPushesOnlyLaterEntries(w, es[..|es| - 1], now);
      var v := SweepAll(w, es[..|es| - 1], now);
      var id := es[|es| - 1].value;
      if id in v.table && v.table[id].IsBlocked(now) {
        ReleasedIsDueAtExpiry(v.table[id], now);
      }
    }
  }

  /**
   * Heap bookkeeping of the scan loop: if the current entries plus those
   * popped equal the original entries plus those pushed, every popped entry
   * is due and every pushed one is not, then the popped entries were all
   * among the original ones.
   */
  lemma PoppedFromOriginal(current: multiset<Entry<string>>, popped: multiset<Entry<string>>,
                           original: multiset<Entry<string>>, pushed: multiset<Entry<string>>, now: int)
    requires current + popped == original + pushed
    requires forall e :: e in popped ==> e.priority <= now
    requires forall e :: e in pushed ==> now < e.priority
    ensures popped <= original
  {
    forall e | e in popped
      ensures popped[e] <= original[e]
    {
      assert pushed[e] == 0;
      assert (current + popped)[e] == (original + pushed)[e];
    }
  }

  /**
   * The heap bookkeeping of the scan loop: the entries still queued plus those
   * popped are the original entries plus those the scan queued; the popped
   * entries came from the original ones, in priority order, and were all due;
   * the queued ones are not due; nothing left is below the last popped entry.
   */
  ghost predicate ScanBookkeeping(current: multiset<Entry<string>>, original: multiset<Entry<string>>,
                                  popped: seq<Entry<string>>, pushed: seq<Entry<string>>, now: int) {
    && current + multiset(popped) == original + multiset(pushed)
    && multiset(popped) <= original
    && InPriorityOrder(popped) && (forall e :: e in popped ==> e.priority <= now)
    && (forall e :: e in pushed ==> now < e.priority)
    && (|popped| > 0 ==> forall e :: e in current ==> popped[|popped| - 1].priority <= e.priority)
  }

  /**
   * One pass of the scan loop keeps the bookkeeping: a due minimum `e` is
   * popped from `current` (leaving `mid`), and the pass then queues only
   * entries that are not due (ending in `current'`).
   */
  lemma ScanBookkeepingStep(current: multiset<Entry<string>>, mid: multiset<Entry<string>>,
                            current': multiset<Entry<string>>, original: multiset<Entry<string>>,
                            popped: seq<Entry<string>>, pushed: seq<Entry<string>>,
                            pushed': seq<Entry<string>>, e: Entry<string>, now: int)
    requires ScanBookkeeping(current, original, popped, pushed, now)
    requires e in current && mid == current - multiset{e} && e.priority <= now
    requires forall x :: x in current ==> e.priority <= x.priority
    requires current' + multiset(pushed) == mid + multiset(pushed')
    requires forall x :: x in pushed' ==> now < x.priority
    ensures ScanBookkeeping(current', original, popped + [e], pushed', now)
  {
    var popped' := popped + [e];
    ScanCountsStep(current, mid, current', original, multiset(popped), multiset(pushed), multiset(pushed'), e);
    assert multiset(popped') == multiset(popped) + multiset{e};
    PoppedFromOriginal(current', multiset(popped'), original, multiset(pushed'), now);
    ScanLowerBoundStep(current, mid, current', multiset(pushed), multiset(pushed'), e, now);
    assert InPriorityOrder(popped') by {
      forall i, j | 0 <= i < j < |popped'|
        ensures popped'[i].priority <= popped'[j].priority
      {
        if j == |popped| && 0 < |popped| {
          assert popped[i].priority <= popped[|popped| - 1].priority;
        }
      }
    }
  }

  /** The counting half of a scan pass: what is queued plus what was popped stays balanced. */
  lemma ScanCountsStep(current: multiset<Entry<string>>, mid: multiset<Entry<string>>,
                       current': multiset<Entry<string>>, original: multiset<Entry<string>>,
                       popped: multiset<Entry<string>>, pushed: multiset<Entry<string>>,
                       pushed': multiset<Entry<string>>, e: Entry<string>)
    requires current + popped == original + pushed
    requires e in current && mid == current - multiset{e}
    requires current' + pushed == mid + pushed'
    ensures current' + (popped + multiset{e}) == original + pushed'
  {
    assert current == mid + multiset{e};
    forall x
      ensures (current' + (popped + multiset{e}))[x] == (original + pushed')[x]
    {
      assert (current' + pushed)[x] == (mid + pushed')[x];
      assert (current + popped)[x] == (original + pushed)[x];
    }
  }

  /** The ordering half of a scan pass: nothing left in the queue is below the popped minimum. */
  lemma ScanLowerBoundStep(current: multiset<Entry<string>>, mid: multiset<Entry<string>>,
                           current': multiset<Entry<string>>, pushed: multiset<Entry<string>>,
                           pushed': multiset<Entry<string>>, e: Entry<string>, now: int)
    requires mid <= current && e.priority <= now
    requires forall x :: x in current ==> e.priority <= x.priority
    requires current' + pushed == mid + pushed'
    requires forall x :: x in pushed' ==> now < x.priority
    ensures forall x :: x in current' ==> e.priority <= x.priority
  {
    forall x | x in current'
      ensures e.priority <= x.priority
    {
      assert (current' + pushed)[x] == (mid + pushed')[x];
      assert x in mid || x in pushed';
    }
  }

  /** The final pass over the batch: remove every id still marked expired. */
  function DeleteExpired(t: Table, a: set<string>, batch: seq<string>): (Table, set<string>)
    decreases |batch|
  {
    if |batch| == 0 then (t, a)
    else
      var (t', a') := DeleteExpired(t, a, batch[..|batch| - 1]);
      var id := batch[|batch| - 1];
      if id in t' && t'[id].status == Expired then (t' - {id}, a' - {id}) else (t', a')
  }

  /** One popped entry keeps the sweep invariant. */
  lemma SweepEntryKeepsReconcilable(w: Sweep, e: Entry<string>, now: int)
    requires Reconcilable(w.table, w.available, w.batch)
    ensures var w' := SweepEntry(w, e, now);
      Reconcilable(w'.table, w'.available, w'.batch) && w'.table.Keys == w.table.Keys
  {
  }

  /** The scan loop never adds or removes records, and keeps the sweep invariant. */
  lemma {:induction false} SweepAllKeepsReconcilable(w: Sweep, es: seq<Entry<string>>, now: int)
    requires Reconcilable(w.table, w.available, w.batch)
    ensures var w' := SweepAll(w, es, now);
      Reconcilable(w'.table, w'.available, w'.batch) && w'.table.Keys == w.table.Keys
    decreases |es|
  {
    if |es| > 0 {
      SweepAllKeepsReconcilable(w, es[..|es| - 1], now);
      SweepEntryKeepsReconcilable(SweepAll(w, es[..|es| - 1], now), es[|es| - 1], now);
    }
  }

  /** Processing a prefix of the batch leaves every still-expired record in the rest of the batch. */
  lemma {:induction false} DeleteExpiredPrefix(t: Table, a: set<string>, batch: seq<string>, k: nat)
    requires k <= |batch|
    requires Reconcilable(t, a, batch)
    ensures var (t', a') := DeleteExpired(t, a, batch[..k]);
      Reconcilable(t', a', batch[k..]) && t'.Keys <= t.Keys
    decreases k
  {
    if k > 0 {
      DeleteExpiredPrefix(t, a, batch, k - 1);
      assert batch[..k][..k - 1] == batch[..k - 1];
      var (t1, a1) := DeleteExpired(t, a, batch[..k - 1]);
      assert batch[k - 1..] == [batch[k - 1]] + batch[k..];
      var id := batch[k - 1];
      forall j | j in t1 && j != id && t1[j].status == Expired
        ensures j in batch[k..]
      {
        assert j in batch[k - 1..];
      }
    }
  }

  /** After the deletion pass the manager's invariant holds again. */
  lemma DeleteExpiredRestoresConsistency(t: Table, a: set<string>, batch: seq<string>)
    requires Reconcilable(t, a, batch)
    ensures var (t', a') := DeleteExpired(t, a, batch);
      Consistent(t', a') && t'.Keys <= t.Keys
  {
    DeleteExpiredPrefix(t, a, batch, |batch|);
    assert batch[..|batch|] == batch;
  }

  /** A whole sweep, scan and deletion pass, keeps the manager's invariant. */
  lemma SweepKeepsConsistency(t: Table, a: set<string>, es: seq<Entry<string>>, now: int)
    requires Consistent(t, a)
    ensures var w := SweepAll(Sweep(t, a, [], []), es, now);
      var (t', a') := DeleteExpired(w.table, w.available, w.batch);
      Consistent(t', a') && t'.Keys <= t.Keys
  {
    SweepAllKeepsReconcilable(Sweep(t, a, [], []), es, now);
    var w := SweepAll(Sweep(t, a, [], []), es, now);
    DeleteExpiredRestoresConsistency(w.table, w.available, w.batch);
  }
}
