/**
 * The API-key record of key_server/key_object.rb.
 *
 * `KeyState` is the value of a record's fields at one instant; the time-based
 * predicates of the Ruby class are defined on it, with the clock reading `now`
 * passed in. `KeyObject` is the mutable record itself, whose fields the key
 * manager updates in place.
 */
module KeyObjects {
  import opened Wrappers

  /** The Ruby symbols `:available`, `:blocked`, `:deleted`, `:expired`. */
  datatype Status = Available | Blocked | Deleted | Expired

  /** Seconds a blocked key may stay blocked before it is released (hard-coded in `should_auto_release_blocked?`). */
  const AUTO_RELEASE_SECONDS: int := 60

  datatype KeyState = KeyState(
    status: Status,
    generatedAt: int,
    expiresAt: int,
    lastActiveAt: int,
    blockedAt: Option<int>,
    staleInHeap: bool)
  {
    /** `active?`: neither deleted nor expired; the clock plays no part. */
    predicate IsActive() {
      status != Deleted && status != Expired
    }

    /** `expired?`: the expiry instant has been reached (inclusive). */
    predicate IsExpired(now: int) {
      expiresAt <= now
    }

    /** `available?`: only an active record can be served. */
    predicate IsAvailable(now: int)
      ensures IsAvailable(now) ==> IsActive() && !IsExpired(now)
    {
      status == Available && !IsExpired(now)
    }

    /** `blocked?`: a blocked record is active and not available at the same time. */
    predicate IsBlocked(now: int)
      ensures IsBlocked(now) ==> IsActive() && !IsExpired(now) && !IsAvailable(now)
    {
      status == Blocked && !IsExpired(now)
    }

    /** `should_auto_release_blocked?`: only an active record that is not available is ever released this way. */
    predicate ShouldAutoReleaseBlocked(now: int)
      ensures ShouldAutoReleaseBlocked(now) ==> IsActive() && !IsAvailable(now) && blockedAt.Some?
    {
      status == Blocked && blockedAt.Some? && now - blockedAt.value >= AUTO_RELEASE_SECONDS
    }
  }

  /** The state of a freshly generated record. */
  function NewKeyState(initialExpiry: int, now: int): (s: KeyState)
    ensures s.status == Available && s.blockedAt == None && !s.staleInHeap
    ensures s.expiresAt == initialExpiry && s.generatedAt == now && s.lastActiveAt == now
  {
    KeyState(Available, now, initialExpiry, now, None, false)
  }

  /** `active?` looks at the status only; the other fields and the clock do not matter. */
  lemma ActiveIgnoresTime(s: KeyState, now: int)
    ensures s.IsActive() <==> s.status == Available || s.status == Blocked
    ensures s.IsActive() == s.(expiresAt := now).IsActive()
  {
  }

  /** `available?` and `blocked?` exclude each other, and both fail once the key has expired. */
  lemma AvailableBlockedExclusive(s: KeyState, now: int)
    ensures !(s.IsAvailable(now) && s.IsBlocked(now))
    ensures s.IsExpired(now) ==> !s.IsAvailable(now) && !s.IsBlocked(now)
    ensures s.IsExpired(now) <==> now >= s.expiresAt
  {
  }

  /** A record blocked at `t` is due for auto-release exactly from `t + 60` on; no other status ever is. */
  lemma AutoReleaseThreshold(s: KeyState, t: int)
    requires s.blockedAt == Some(t)
    ensures forall now :: s.ShouldAutoReleaseBlocked(now) <==> s.status == Blocked && now >= t + 60
  {
  }

  class KeyObject {
    const id: string
    var status: Status
    const generatedAt: int
    var expiresAt: int
    var lastActiveAt: int
    var blockedAt: Option<int>
    var isStaleInHeap: bool

    /** The current value of all mutable fields. */
    function State(): KeyState
      reads this
    {
      KeyState(status, generatedAt, expiresAt, lastActiveAt, blockedAt, isStaleInHeap)
    }

    /** `initialize(id, initial_expiry)`, with the clock reading `now`. */
    constructor (id: string, initialExpiry: int, now: int)
      ensures this.id == id
      ensures State() == NewKeyState(initialExpiry, now)
    {
      this.id := id;
      status := Available;
      generatedAt := now;
      expiresAt := initialExpiry;
      lastActiveAt := now;
      blockedAt := None;
      isStaleInHeap := false;
    }

    method MarkStaleInHeap()
      modifies this
      ensures State() == old(State()).(staleInHeap := true)
    {
      isStaleInHeap := true;
    }

    method ResetStaleInHeap()
      modifies this
      ensures State() == old(State()).(staleInHeap := false)
    {
      isStaleInHeap := false;
    }
  }
}
