# Key servers and the Greed dice game, modelled in Dafny

This project models three pieces of one Ruby repository and proves properties of them.

- **The API-key lease manager** in `key_server/`:
  - `KeyObject` is a mutable record with time-based predicates.
  - `MinHeap` is an array-backed binary min-heap of `[priority, value]` pairs.
  - `KeyManager` owns three things: a table from id to record, the set of available ids, and an expiry heap. It provides generate, get (block), unblock, delete, keep-alive and `perform_cleanup`. The cleanup pops the due heap entries, expires keys or auto-releases blocked ones, and then deletes the expired keys.
- **The older key pool** `KeygenServer` in `key-server/`. It keeps a hash of records (`expiry`, `blocked_till`), an available set and a deleted set, and has a `cron` sweep.
- **The Greed dice game**: the scoring and non-scoring counts of `GameClass` (`greed/game.rb`), the end-of-game test, the winner, the banking rule, and the `Dice` class (`greed/diceset.rb`).

## How the model is built

The model keeps the shape of the source.

- Objects whose fields change in place are Dafny classes whose methods reassign those fields: `KeyObject`, `MinHeap`, `KeyManager`, `KeygenServer`, `GameClass` and `Dice`.
- Ruby hashes, sets and arrays are `map`, `set` and `seq` fields.
- Loops stay loops, with their invariants. Examples are `bubble_up`, `bubble_down`, the scan and deletion passes of `perform_cleanup`, the `generate_keys` loop, the `cron` loop, `score`, `get_nonscoring_num`, `final_round?`, `get_winner` and `to_s`.

Each method is proved against a function on values:

| method | proved against | file |
|---|---|---|
| `KeyManager` methods | `LeaseRules` (`Served`, `Released`, `Refreshed`, `SweepAll`, `DeleteExpired`) and the invariant `Consistent` | `lease_rules.dfy` |
| `KeygenServer` methods | `Unblock`, `Delete`, `CronAfter`, `WithNewKeys` and `PoolInvariant` | `keygen_server.dfy` |
| the game's scans | `Scan`, with `FaceTotal`, a per-face reference total computed from the counts alone | `greed_rules.dfy` |

Nothing the source reads from outside the program appears in the model:

- A clock reading (`Time.now`) is an integer parameter `now`, read once per operation.
- Random ids (`SecureRandom`) are any string not in use.
- `rand(1..6)` is a choice of any face.

### The stale flag and the 60-second auto-release

The heap entries of a key are not updated when the key changes. Instead, every change pushes a new entry and sets one boolean per record, `is_stale_in_heap` (`key_server/key_object.rb:70-77`). When the sweep meets an entry of a record whose flag is set, it clears the flag and skips that entry (`key_server/key_manager.rb:215-218`). It skips the first entry of that key it meets, whichever entry that is.

After `get_available_key` at time 0, a key generated at time 0 has two entries:

- `E(60)`, its block window;
- `E(300)`, its generation expiry.

The block-window entry pops first and is the one skipped. The tests in `key_server/spec/key_manager_spec.rb:341-358` expect a cleanup after 60 seconds to release the key. The code does not do that. The model follows the code. `KeyManagerScenarios` works both cases out from the manager's own contracts:

- `StaleFlagSkipsBlockWindow`: the key is still blocked after the cleanup at 61.
- `ReleaseAfterStaleEntryIsSpent`: a key served at 250 is released at 310, because its stale flag was already spent on the generation entry at 300.

## Model

| member | source | states |
|---|---|---|
| KeyObjects.NewKeyState | key_server/key_object.rb:28-36 | a new record is available, not blocked, not stale, expires at the given instant, and was generated and last active now |
| KeyObjects.KeyObject.constructor | key_server/key_object.rb:28-36 | the new object's fields are exactly `NewKeyState(initialExpiry, now)` and it keeps its id |
| KeyObjects.ActiveIgnoresTime | key_server/key_object.rb:40-42 | `active?` holds exactly for available or blocked records and does not depend on the expiry or the clock |
| KeyObjects.AvailableBlockedExclusive | key_server/key_object.rb:46-60 | `available?` and `blocked?` never hold together; both fail once expired; `expired?` is inclusive (`expires_at <= now`) |
| KeyObjects.KeyState.IsActive | key_server/key_object.rb:40-42 | `active?`: neither deleted nor expired; its meaning in terms of the four statuses is stated by `ActiveIgnoresTime` |
| KeyObjects.KeyState.IsExpired | key_server/key_object.rb:58-60 | `expired?`, inclusive at `expires_at`; what it excludes is stated by `AvailableBlockedExclusive` and the contracts of the three predicates below |
| KeyObjects.KeyState.IsAvailable | key_server/key_object.rb:46-48 | an available record is active and not expired |
| KeyObjects.KeyState.IsBlocked | key_server/key_object.rb:52-54 | a blocked record is active, not expired and not available |
| KeyObjects.KeyState.ShouldAutoReleaseBlocked | key_server/key_object.rb:65-67 | a record due for auto-release is active, not available and has a block time |
| KeyObjects.AutoReleaseThreshold | key_server/key_object.rb:65-67 | for every clock reading, a record blocked at `t` is due for auto-release exactly when its status is blocked and the reading is `t+60` or later |
| KeyObjects.KeyObject.MarkStaleInHeap | key_server/key_object.rb:70-72 | sets the stale flag; every other field keeps its value |
| KeyObjects.KeyObject.ResetStaleInHeap | key_server/key_object.rb:75-77 | clears the stale flag; every other field keeps its value |
| MinHeaps.ParentIndex | key_server/min_heap.rb:52-54 | the parent of every index above 0 is a stored index before it; the root's parent is -1 |
| MinHeaps.LeftChildIndex | key_server/min_heap.rb:57-59 | the left child of a stored index comes after it and has it as parent |
| MinHeaps.RightChildIndex | key_server/min_heap.rb:62-64 | the right child is one past the left child and has the same parent |
| MinHeaps.ChildrenHaveParent | key_server/min_heap.rb:52-64 | both children of `i` have `i` as parent, and the parent of `i+1` is between 0 and `i` |
| MinHeaps.RootIsMinimum | key_server/min_heap.rb:35-37 | in a heap-ordered sequence the root has a priority no larger than any element |
| MinHeaps.SwapUpStep | key_server/min_heap.rb:68-74 | one `bubble_up` swap keeps the order everywhere except above the moved element, and permutes the heap |
| MinHeaps.SwapDownStep | key_server/min_heap.rb:94-97 | one `bubble_down` swap with the smaller child moves the gap one level down and permutes the heap |
| MinHeaps.SettledBelow | key_server/min_heap.rb:98-99 | when no child is smaller than the current element, the whole sequence is heap-ordered |
| MinHeaps.LastToRoot | key_server/min_heap.rb:27-28 | moving the last element to the root leaves a heap whose only gap is below the root, holding every element but the old root |
| MinHeaps.MinHeap.constructor | key_server/min_heap.rb:9-11 | a new heap is empty and ordered |
| MinHeaps.MinHeap.Insert | key_server/min_heap.rb:16-19 | the heap stays ordered, grows by one, and its multiset gains exactly the item |
| MinHeaps.MinHeap.ExtractMin | key_server/min_heap.rb:23-31 | nil on an empty heap, with nothing changed; otherwise the old root, whose priority is minimal; exactly one occurrence of it is removed, and the heap stays ordered |
| MinHeaps.MinHeap.Peek | key_server/min_heap.rb:35-37 | nil exactly on an empty heap; otherwise the root, which has minimal priority (the element `ExtractMin` removes) |
| MinHeaps.MinHeap.Size | key_server/min_heap.rb:40-42 | the number of elements, counted with repeats |
| MinHeaps.MinHeap.IsEmpty | key_server/min_heap.rb:45-47 | empty exactly when the size is 0 |
| MinHeaps.MinHeap.BubbleUp | key_server/min_heap.rb:68-74 | from a heap whose only gap is above `index`, restores the order without changing the multiset |
| MinHeaps.MinHeap.BubbleDown | key_server/min_heap.rb:78-102 | from a heap whose only gap is below `index`, restores the order without changing the multiset |
| LeaseRules.NextCleanupTimestamp | key_server/key_manager.rb:43-54 | for a blocked record with a block time, the earlier of expiry and block time + 60; otherwise the expiry; never later than the expiry |
| LeaseRules.ServedIsDueAtBlockWindow | key_server/key_manager.rb:87-94 | a served record is blocked, not available, queued for the end of its 60-second window, and due for release at exactly 60 seconds |
| LeaseRules.ReleasedIsDueAtExpiry | key_server/key_manager.rb:112-120 | an unblocked record is available, not blocked, unexpired, and queued for its new five-minute expiry |
| LeaseRules.RefreshedKeepsBlockWindow | key_server/key_manager.rb:155-161 | keep-alive leaves status and block time unchanged, so a blocked record stays queued for the end of its block window |
| LeaseRules.AvailableIsStatus | key_server/key_manager.rb:283-287 | under the invariant the available set is exactly the set of records with status `:available` |
| LeaseRules.ConsistentIsReconcilableWithNothingPending | key_server/key_manager.rb:203-251 | the invariant between operations is the mid-sweep invariant with no pending deletions |
| LeaseRules.SweepPushesOnlyLaterEntries | key_server/key_manager.rb:226-232 | a sweep at `now` only queues entries due after `now`, so it never meets its own entries |
| LeaseRules.PoppedFromOriginal | key_server/key_manager.rb:209-210 | when everything popped was due and everything pushed was not, the popped entries came from the original heap |
| LeaseRules.ScanBookkeepingStep | key_server/key_manager.rb:209-237 | one pass of the scan loop keeps the bookkeeping: popped plus queued entries balance, the pops come in priority order and were due, and nothing left is below the last pop |
| LeaseRules.SweepEntryKeepsReconcilable | key_server/key_manager.rb:211-233 | handling one popped entry keeps the mid-sweep invariant and the set of stored ids |
| LeaseRules.SweepAllKeepsReconcilable | key_server/key_manager.rb:209-237 | the whole scan loop keeps the mid-sweep invariant and the set of stored ids |
| LeaseRules.DeleteExpiredRestoresConsistency | key_server/key_manager.rb:241-249 | after the deletion pass the manager's invariant holds again, and no id was added |
| LeaseRules.SweepKeepsConsistency | key_server/key_manager.rb:203-251 | a whole cleanup, scan then deletion, keeps the manager's invariant |
| KeyManagers.KeyManager.constructor | key_server/key_manager.rb:27-38 | no records, nothing available, an empty heap |
| KeyManagers.KeyManager.GenerateKey | key_server/key_manager.rb:60-73 | a fresh id, stored available with expiry now + 300, added to the available set, and exactly one heap entry at its expiry |
| KeyManagers.KeyManager.GetAvailableKey | key_server/key_manager.rb:78-101 | nil and no change when nothing is available; otherwise some available id, now blocked at `now` with expiry now + 300 and marked stale, removed from the set, with one entry at now + 60 |
| KeyManagers.KeyManager.UnblockKey | key_server/key_manager.rb:105-130 | true exactly for a stored, blocked, unexpired record; then it is available, unblocked, expires at now + 300, rejoins the set and gets one entry; otherwise nothing changes |
| KeyManagers.KeyManager.DeleteKey | key_server/key_manager.rb:134-146 | true exactly for a stored id; the id leaves the table and the available set; the heap is untouched |
| KeyManagers.KeyManager.KeepAlive | key_server/key_manager.rb:150-166 | true exactly for a stored, active record; then expiry becomes now + 300, status and block time stay, and one entry is queued at its next cleanup time |
| KeyManagers.KeyManager.ResetState | key_server/key_manager.rb:193-200 | empty table, empty available set, a new empty heap |
| KeyManagers.KeyManager.PerformCleanup | key_server/key_manager.rb:203-251 | pops exactly the due entries, all of them and in priority order, handles them as `SweepEntry` says, then deletes the records marked expired; the invariant holds and nothing due is left |
| KeyManagers.KeyManager.ScanDueEntries | key_server/key_manager.rb:209-237 | the scan loop: the state after popping while the minimum is due is the sweep over the popped entries |
| KeyManagers.KeyManager.SweepStep | key_server/key_manager.rb:211-233 | the handling of one popped entry follows `SweepEntry`: an unknown id is skipped, a stale flag is cleared, an expired record is marked, and a due blocked record is unblocked |
| KeyManagers.KeyManager.ScanStep | key_server/key_manager.rb:209-233 | one pass of the scan loop pops the minimum, whose handling extends the sweep fold by that entry, and keeps the heap's bookkeeping (balance, priority order, all pops due) |
| KeyManagers.KeyManager.ResetStaleRecord | key_server/key_manager.rb:215-216 | only record `id` changes, and only its stale flag, which is cleared; the available set and the heap stay |
| KeyManagers.KeyManager.ExpireRecord | key_server/key_manager.rb:224 | only record `id` changes, and only its status, to `:expired`; the available set and the heap stay |
| KeyManagers.KeyManager.BlockRecord | key_server/key_manager.rb:87-92 | only record `id` changes, to `Served` of its old state: blocked at `now`, active at `now`, expiring at now + 300, marked stale |
| KeyManagers.KeyManager.ReleaseRecord | key_server/key_manager.rb:113-118 | only record `id` changes, to `Released` of its old state: available, no block time, active at `now`, expiring at now + 300, marked stale |
| KeyManagers.KeyManager.RefreshRecord | key_server/key_manager.rb:155-159 | only record `id` changes, to `Refreshed` of its old state: active at `now`, expiring at now + 300, marked stale, status and block time kept |
| KeyManagers.KeyManager.DeleteBatch | key_server/key_manager.rb:241-249 | the deletion pass removes each batched id still marked expired, as `DeleteExpired` says |
| KeyManagers.KeyManager.DeleteKeyInternal | key_server/key_manager.rb:268-271 | the id leaves the table and the available set, if present |
| KeyManagers.KeyManager.KeyStatus | key_server/key_manager.rb:275-280 | the stored record's status, or nil exactly for an unknown id; it is available exactly when in the available set, and never deleted or expired |
| KeyManagers.KeyManager.AvailableKeysCount | key_server/key_manager.rb:283-287 | the number of stored records with status `:available` |
| KeyManagers.KeyManager.TotalKeysCount | key_server/key_manager.rb:290-294 | the number of stored records |
| KeyManagerScenarios.PopsOnlyDueEntry | key_server/key_manager.rb:209-210 | when one entry alone is due, the cleanup pops exactly that entry |
| KeyManagerScenarios.SweepOfStaleEntry | key_server/key_manager.rb:215-218 | meeting an entry of a stale record only clears the flag |
| KeyManagerScenarios.SweepOfDueBlock | key_server/key_manager.rb:226-232 | meeting the due block-window entry of a non-stale blocked record releases it and queues its new expiry |
| KeyManagerScenarios.SweepOfExpiredEntry | key_server/key_manager.rb:222-225 | meeting the entry of an expired, non-stale record leads to its deletion |
| KeyManagerScenarios.StaleFlagSkipsBlockWindow | key_server/spec/key_manager_spec.rb:341-358 | generate at 0, get at 0, clean up at 61: the key is still blocked and none is available |
| KeyManagerScenarios.ReleaseAfterStaleEntryIsSpent | key_server/key_manager.rb:215-232 | generate at 0, get at 250, clean up at 300 and at 310: the key is then available |
| KeyManagerScenarios.ExpiryRemovesKey | key_server/key_manager.rb:222-249 | generate at 0, clean up at 300: expiry is inclusive and the key is gone |
| KeygenServers.Unblock | key-server/keygen_server.rb:42-52 | returns the key exactly when it is stored with a `blocked_till`; then only `expiry` is kept, and the key joins `available_keys`, which gains nothing else; otherwise nothing changes |
| KeygenServers.Delete | key-server/keygen_server.rb:53-62 | returns the key exactly when it is stored; it then moves from `keys` and `available_keys` to `deleted_keys`; otherwise nothing changes |
| KeygenServers.CronAfterNone | key-server/keygen_server.rb:71-73 | before any visit, `cron` has changed nothing |
| KeygenServers.CronVisitStep | key-server/keygen_server.rb:73-76 | one more loop pass, for a key not yet visited and in any order, gives the set-defined result for the visited keys plus that key |
| KeygenServers.CronKeepsInvariant | key-server/keygen_server.rb:71-77 | a full `cron` keeps the pool invariant, deletes only, and leaves no stored key with `blocked_till < now` or `expiry < now` |
| KeygenServers.WithNewKeysStep | key-server/keygen_server.rb:22-25 | storing one more unused key extends the set-defined result by that key |
| KeygenServers.WithNewKeysKeepsInvariant | key-server/keygen_server.rb:16-28 | fresh keys that were never stored or deleted keep the invariant, and the table grows by their number |
| KeygenServers.KeygenServer.constructor | key-server/keygen_server.rb:4-8 | all three collections are empty and the invariant holds |
| KeygenServers.KeygenServer.GenerateKeys | key-server/keygen_server.rb:16-28 | adds exactly `count` keys (none for a count below one), each previously neither stored nor deleted, available and expiring at now + 300; returns the whole available set |
| KeygenServers.KeygenServer.AddFreshKeys | key-server/keygen_server.rb:17-26 | the `count.times` loop stores `count` fresh keys |
| KeygenServers.KeygenServer.RandomKey | key-server/keygen_server.rb:18-21 | the key chosen by the retry loop is neither stored nor deleted |
| KeygenServers.KeygenServer.StoreKey | key-server/keygen_server.rb:22-25 | the key is stored with expiry now + 300 and no block, and is available |
| KeygenServers.KeygenServer.GetAvailableKey | key-server/keygen_server.rb:32-41 | nil and no change when none is available; otherwise an available key, now with `blocked_till = now + 60` and no longer available |
| KeygenServers.KeygenServer.UnblockKey | key-server/keygen_server.rb:42-52 | follows `Unblock` and keeps the invariant |
| KeygenServers.KeygenServer.DeleteKey | key-server/keygen_server.rb:53-62 | follows `Delete` and keeps the invariant |
| KeygenServers.KeygenServer.KeepAliveKey | key-server/keygen_server.rb:63-70 | nil exactly for an unknown key; otherwise expiry becomes now + 300 and `blocked_till` and both sets stay |
| KeygenServers.KeygenServer.VisitKey | key-server/keygen_server.rb:74-75 | one loop pass of `cron` on the record as it was when the pass began |
| KeygenServers.KeygenServer.Cron | key-server/keygen_server.rb:71-77 | the result is `CronAfter` over all stored keys, so the visiting order plays no part, and the invariant holds |
| KeygenServers.KeygenServer.VisitAll | key-server/keygen_server.rb:73-76 | the loop over a snapshot of the stored keys gives `CronAfter` |
| FreshIds.FreshIdExists | key-server/keygen_server.rb:19-21 | some string is outside any finite set of ids, so the retry loop can end |
| GreedRules.RunValueClosedForm | greed/game.rb:36-50 | `count` equal dice are worth `count / 3` triples plus `count % 3` singles |
| GreedRules.Insert | greed/game.rb:32 | inserting into a sorted sequence gives a sorted sequence with one more occurrence of the value |
| GreedRules.Sort | greed/game.rb:32 | the result is sorted and a permutation of the input |
| GreedRules.SortValues | greed/game.rb:63 | the result is `Sort` of the input |
| GreedRules.SortedUnique | greed/game.rb:32 | two sorted sequences with the same multiset are equal |
| GreedRules.SortedScanIsOrderFree | greed/game.rb:32-52 | two sorted sequences of the same values scan to the same total, so sorting first makes the order of the roll irrelevant |
| GreedRules.ScanOfSortedDice | greed/game.rb:35-51 | on sorted die values the scan equals the per-face total of the counts (triples first, then singles) |
| GreedRules.RunValuePointsNonNegative | greed/game.rb:36-50 | no run of dice is worth negative points |
| GreedRules.FaceTotalPointsNonNegative | greed/game.rb:30-53 | no roll of dice is worth negative points |
| GreedRules.ScanPointsMultipleOf50 | greed/game.rb:30-53 | every score is a multiple of 50 |
| GreedRules.NonscoringAtMostDice | greed/game.rb:60-74 | the non-scoring count is between 0 and the number of dice |
| DiceSets.NatString | greed/diceset.rb:19 | the text of a natural number is non-empty, made of digits, one digit below 10 and with no leading zero from 10 on |
| DiceSets.NatStringSpellsValue | greed/diceset.rb:19 | reading the text back as decimal digits gives the number itself |
| DiceSets.Chomp | greed/diceset.rb:21 | with the suffix at its end, the result followed by the suffix is the input; otherwise the input is unchanged |
| DiceSets.TerminatedIsJoinAndSeparator | greed/diceset.rb:17-20 | after the loop the text is the values joined by `", "`, plus one trailing `", "` |
| DiceSets.JoinOfDigits | greed/diceset.rb:16-22 | die faces are written one digit each, at every third character, with `", "` between neighbours and length 3n-2 |
| DiceSets.Dice.constructor | greed/diceset.rb:12-14 | a new dice set has no values |
| DiceSets.Dice.ToS | greed/diceset.rb:16-22 | the values joined by `", "`, with no trailing separator |
| DiceSets.Dice.Roll | greed/diceset.rb:24-27 | exactly `n` values (none for `n` below one), replacing the old ones, each from 1 to 6 |
| DiceSets.ToSExamples | greed/test/test_diceset.rb:34-44 | `[1, 2, 3]`, `[5]` and `[]` are written `"1, 2, 3"`, `"5"` and `""` |
| Greed.Banked | greed/game.rb:104-106 | the turn's points are added when the total or the turn reaches 300, and the total is kept when neither does; a non-negative turn never lowers the total |
| Greed.BankedFromZero | greed/game.rb:104-106 | from 0, any sequence of non-negative turns leaves 0 or at least 300 |
| Greed.GameClass.constructor | greed/game.rb:16-28 | players 1 to `num_players` in order, each with score 0, and a new empty dice set |
| Greed.GameClass.Create | greed/game.rb:16-17 | fails (the Ruby `ArgumentError`) exactly when there are fewer than two players |
| Greed.GameClass.Score | greed/game.rb:30-53 | sorts the dice in place; the score is the scan of the sorted values, a multiple of 50; for die faces it is the per-face total of the counts and non-negative |
| Greed.GameClass.NonscoringNum | greed/game.rb:60-77 | the number of dice in no triple and neither 1 nor 5, or 5 when there are none; between 1 and the number of dice (or 5); the dice are not reordered |
| Greed.GameClass.FinalRound | greed/game.rb:113-118 | true exactly when some player has at least 3000 |
| Greed.GameClass.GetWinner | greed/game.rb:120-130 | nil exactly when there are no players; otherwise a player of maximal score, the earliest one on ties |
| Greed.GameClass.BankTurn | greed/game.rb:104-106 | only the player's score changes, to the banked total |

## Left out

- Threads and locking are left out: the `Monitor`, the condition variable, `start_cleanup_thread`, `stop_cleanup_thread`, `run_cleanup_loop` (key_server/key_manager.rb:31-35, 171-190, 256-265) and the sleeping `cron` thread of `KeygenServer` (key-server/keygen_server.rb:9-14). Each operation is one atomic step.
- Clock: `Time.now` is an integer parameter `now` read once per operation. Float timestamps (`.to_f`) are integers. `perform_cleanup` reads the clock afresh for each popped entry, and the model uses one reading for the whole run.
- `SecureRandom.uuid` and `SecureRandom.hex(12)` are any string not in use. No length is stated for the ids: `hex(12)` gives 24 characters, while key-server/spec/keygen_server_spec.rb:22-24 expects 12.
- Iteration order of a Ruby `Set`: `get_available_key` (both servers) returns the first element in insertion order. The model returns some available element.
- KeyManagers.KeyManager.GetAvailableKey: the `return nil unless key` guard (key_server/key_manager.rb:85) is not modelled, because the invariant makes it unreachable.
- `rand(1..6)` in `roll` is a choice of any face from 1 to 6.
- Logging (`puts`) is left out.
- The HTTP routes in key_server/app.rb and key-server/app.rb are not part of this model.
- Greed.GameClass.constructor requires at least two players. The raising path of `initialize` (greed/game.rb:17) is `Greed.GameClass.Create`, which returns `None`.
- The interactive game is left out: `play_turn`'s prompt loop, `take_input_to_play_again`, `play`, `print_scores`, `sleep`, `gets` (greed/game.rb:55-58, 79-111, 132-162) and greed/run.rb. Only the banking rule of `play_turn` is modelled, as `BankTurn`.
- `PlayerClass` (greed/player.rb) is the value `Player(number)`, compared by number. This matches its `eql?` and `hash` on the name `"Player i"`.
- KeyManagers.KeyManager.PerformCleanup does not state that every key is eventually swept, nor that each key has exactly one live heap entry. The stale flag makes both false in the code.
