/** The process-wide session registry (`_storeLocks`) and the decisions that
    `CheckSession` and `LockStore` take on it, as functions of the registry contents,
    the engine's own session state and a clock reading. Times are integer ticks. */
module StoreLocks {
  import opened Errors

  /** A registry entry: the session that holds a store and when it expires. */
  datatype Session = Session(sessionId: string, expiration: int)

  /** The registry shared by every engine, keyed by store id. */
  class SessionRegistry {
    var locks: map<string, Session>

    constructor ()
      ensures locks == map[]
    {
      locks := map[];
    }
  }

  /** `!string.IsNullOrEmpty(sessionId)`. */
  predicate HasSession(sessionId: Option<string>)
  {
    sessionId.Some? && sessionId.value != ""
  }

  /** The outcome of `CheckSession`, its tests taken in the order the code makes them. */
  function SessionOutcome(disposed: bool, sessionId: Option<string>, locks: map<string, Session>,
                          storeId: string, now: int): Outcome
  {
    if disposed then Fail(ObjectDisposed)
    else if !HasSession(sessionId) then Fail(NotOpen)
    else if storeId !in locks then Fail(NotOpen)
    else if locks[storeId].expiration < now then Fail(SessionExpired)
    else if locks[storeId].sessionId != sessionId.value then Fail(InvalidSession)
    else Pass
  }

  /** `CheckSession` evicts the entry it finds expired, and changes nothing otherwise. */
  function LocksAfterCheck(locks: map<string, Session>, storeId: string, outcome: Outcome): map<string, Session>
  {
    if outcome == Fail(SessionExpired) then locks - {storeId} else locks
  }

  /** Whether `LockStore` succeeds. As written it refuses only an entry whose expiration
      is already past, and takes over an entry that is still live. */
  predicate LockGranted(locks: map<string, Session>, storeId: string, now: int)
  {
    storeId !in locks || !(locks[storeId].expiration < now)
  }

  /** The registry after a successful `LockStore`. */
  function LocksAfterLock(locks: map<string, Session>, storeId: string, now: int, timeout: int,
                          freshId: string): map<string, Session>
  {
    locks[storeId := Session(freshId, now + timeout)]
  }

  /** A check passes exactly for an engine that is not disposed, holds a non-empty session id,
      and finds that id in an unexpired registry entry for its store. */
  lemma CheckPassesExactlyForLiveOwnSession(disposed: bool, sessionId: Option<string>,
                                            locks: map<string, Session>, storeId: string, now: int)
    ensures SessionOutcome(disposed, sessionId, locks, storeId, now) == Pass <==>
      && !disposed && HasSession(sessionId) && storeId in locks
      && now <= locks[storeId].expiration && locks[storeId].sessionId == sessionId.value
  {
  }

  /** Each rejection reason, in the order the code tests them. */
  lemma CheckRejectionReasons(disposed: bool, sessionId: Option<string>,
                              locks: map<string, Session>, storeId: string, now: int)
    ensures disposed ==> SessionOutcome(disposed, sessionId, locks, storeId, now) == Fail(ObjectDisposed)
    ensures !disposed && !HasSession(sessionId) ==>
      SessionOutcome(disposed, sessionId, locks, storeId, now) == Fail(NotOpen)
    ensures !disposed && HasSession(sessionId) && storeId !in locks ==>
      SessionOutcome(disposed, sessionId, locks, storeId, now) == Fail(NotOpen)
    ensures !disposed && HasSession(sessionId) && storeId in locks && locks[storeId].expiration < now ==>
      && SessionOutcome(disposed, sessionId, locks, storeId, now) == Fail(SessionExpired)
      && storeId !in LocksAfterCheck(locks, storeId, Fail(SessionExpired))
    ensures !disposed && HasSession(sessionId) && storeId in locks && now <= locks[storeId].expiration
            && locks[storeId].sessionId != sessionId.value ==>
      SessionOutcome(disposed, sessionId, locks, storeId, now) == Fail(InvalidSession)
  {
  }

  /** A session that was just installed passes the check until its expiration. */
  lemma FreshLockPassesCheck(locks: map<string, Session>, storeId: string, now: int, timeout: int,
                             freshId: string, later: int)
    requires freshId != "" && later <= now + timeout
    ensures SessionOutcome(false, Some(freshId), LocksAfterLock(locks, storeId, now, timeout, freshId),
                           storeId, later) == Pass
  {
  }

  /** As written, `LockStore` takes over a live session of another holder, whose next
      check then fails with InvalidSession: the registry does not keep a second opener out. */
  lemma LockPreemptsLiveSession(locks: map<string, Session>, storeId: string, holder: string,
                                now: int, timeout: int, other: string, later: int)
    requires storeId in locks && locks[storeId].sessionId == holder && now <= locks[storeId].expiration
    requires holder != "" && other != holder && later <= now + timeout
    ensures LockGranted(locks, storeId, now)
    ensures SessionOutcome(false, Some(holder), LocksAfterLock(locks, storeId, now, timeout, other),
                           storeId, later) == Fail(InvalidSession)
  {
  }

  /** As written, an expired entry refuses `LockStore` at that time and at every later time:
      only a check that evicts it, or a `Close`, frees the store again. */
  lemma ExpiredEntryRefusesLockForever(locks: map<string, Session>, storeId: string, now: int, later: int)
    requires storeId in locks && locks[storeId].expiration < now <= later
    ensures !LockGranted(locks, storeId, now) && !LockGranted(locks, storeId, later)
  {
  }

  /** The eviction done by a failing check makes the store lockable again. */
  lemma EvictionFreesStore(locks: map<string, Session>, storeId: string, now: int)
    ensures LockGranted(LocksAfterCheck(locks, storeId, Fail(SessionExpired)), storeId, now)
  {
  }
}
