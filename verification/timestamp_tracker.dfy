/**
  `RedisTimestampTracker`: a shared "last fetch" timestamp under one key,
  guarded by a lock under a second key. Every operation is a function of the
  store state, the store clock `now` (milliseconds) and a set of failing
  Redis calls. A failing call is taken to throw before the server applies
  it, so it has no effect on the store; a call that times out on the client
  after the server applied it is outside this model. Every exception is
  caught inside the operation.
 */
module TimestampTracker {
  import opened Wrappers
  import opened JavaText
  import opened KeyValueStore

  const TIMESTAMP_KEY: string := "fb_comments_last_fetch_timestamp"
  const LOCK_KEY: string := "fb_comments_timestamp_lock"
  const LOCK_TIMEOUT_SECONDS: nat := 30
  const LOCK_TTL_MILLIS: nat := LOCK_TIMEOUT_SECONDS * 1000

  /** The epoch-second range of `java.time.Instant`; outside it `Instant.ofEpochSecond` throws. */
  const INSTANT_MIN_SECOND: int := -31557014167219200
  const INSTANT_MAX_SECOND: int := 31556889864403199

  predicate InInstantRange(v: int) {
    INSTANT_MIN_SECOND <= v <= INSTANT_MAX_SECOND
  }

  /**
    The Redis calls the tracker makes. Each is made at most once per
    operation, so naming it identifies the call that throws.
   */
  datatype Call =
    | ReadTimestamp     // GET of the timestamp
    | AcquireLock       // SET NX of the lock
    | WriteTimestamp    // SET of the timestamp
    | ReadLock          // GET of the lock before releasing it
    | DeleteLock        // DEL of the lock
    | DeleteTimestamp   // DEL of the timestamp

  /** Some holder's lock is present and unexpired. */
  predicate LockHeld(s: Store, now: int) {
    Get(s, LOCK_KEY, now).Some?
  }

  /**
    `getLastFetchTimestamp`: the stored value, trimmed and parsed as a
    `long`; 0 when the read throws, the key is absent, the trimmed value is
    empty or does not parse, and also when the parsed value lies outside
    `Instant`'s range (the success message converts it to an `Instant`,
    which throws, and the generic handler returns 0).
   */
  function GetLastFetchTimestamp(s: Store, now: int, faults: set<Call>): (r: int)
    ensures InLongRange(r) && InInstantRange(r)
    ensures ReadTimestamp in faults ==> r == 0
    ensures Get(s, TIMESTAMP_KEY, now).None? ==> r == 0
    ensures Get(s, TIMESTAMP_KEY, now).Some? && ParseLong(Trim(Get(s, TIMESTAMP_KEY, now).value)).None? ==> r == 0
    ensures r != 0 ==> Get(s, TIMESTAMP_KEY, now).Some? && ParseLong(Trim(Get(s, TIMESTAMP_KEY, now).value)) == Some(r)
    ensures (ReadTimestamp !in faults && Get(s, TIMESTAMP_KEY, now).Some? &&
             ParseLong(Trim(Get(s, TIMESTAMP_KEY, now).value)).Some? &&
             InInstantRange(ParseLong(Trim(Get(s, TIMESTAMP_KEY, now).value)).value)) ==>
      r == ParseLong(Trim(Get(s, TIMESTAMP_KEY, now).value)).value
  {
    if ReadTimestamp in faults then 0
    else
      match Get(s, TIMESTAMP_KEY, now)
      case None => 0
      case Some(stored) =>
        var text := Trim(stored);
        if text == [] then 0
        else
          match ParseLong(text)
          case None => 0
          case Some(v) => if InInstantRange(v) then v else 0
  }

  /** `getLastFetchInstant`, as epoch seconds: absent unless the timestamp is positive. */
  function GetLastFetchInstant(s: Store, now: int, faults: set<Call>): (r: Option<int>)
    ensures r.None? <==> GetLastFetchTimestamp(s, now, faults) <= 0
    ensures r.Some? ==> r.value == GetLastFetchTimestamp(s, now, faults) && r.value > 0
  {
    var ts := GetLastFetchTimestamp(s, now, faults);
    if ts > 0 then Some(ts) else None
  }

  /**
    The lock attempt of `updateLastFetchTimestamp`: SET NX with the caller's
    token and a 30-second expiry. It succeeds exactly when no holder's lock
    is live, and then the lock holds the token until now + 30 s.
   */
  function TryLock(s: Store, lockValue: string, now: int): (r: (bool, Store))
    ensures r.0 <==> !LockHeld(s, now)
    ensures r.0 ==> LOCK_KEY in r.1 && r.1[LOCK_KEY] == Entry(lockValue, Some(now + LOCK_TTL_MILLIS))
    ensures r.0 ==> Get(r.1, LOCK_KEY, now) == Some(lockValue)
    ensures !r.0 ==> r.1 == s
    ensures SameOutside(s, r.1, {LOCK_KEY})
  {
    SetIfAbsent(s, LOCK_KEY, lockValue, LOCK_TTL_MILLIS, now)
  }

  /**
    `releaseLock`: deletes the lock only when its live value is the
    caller's token; any other lock is left as it is.
   */
  function ReleaseLock(s: Store, lockValue: string, now: int, faults: set<Call>): (r: Store)
    ensures r == s || r == Delete(s, LOCK_KEY)
    ensures Get(s, LOCK_KEY, now) != Some(lockValue) ==> r == s
    ensures Get(s, LOCK_KEY, now) == Some(lockValue) && ReadLock !in faults && DeleteLock !in faults ==>
      LOCK_KEY !in r
    ensures SameOutside(s, r, {LOCK_KEY})
  {
    if ReadLock in faults then s
    else
      match Get(s, LOCK_KEY, now)
      case None => s
      case Some(current) =>
        if lockValue == current then
          if DeleteLock in faults then s else Delete(s, LOCK_KEY)
        else s
  }

  /** The timestamp write of either branch: SET of `String.valueOf(epochSeconds)`. */
  function WriteValue(s: Store, epochSeconds: int, faults: set<Call>): (r: Store)
    ensures WriteTimestamp !in faults ==> forall now :: Get(r, TIMESTAMP_KEY, now) == Some(LongToString(epochSeconds))
    ensures WriteTimestamp in faults ==> r == s
    ensures SameOutside(s, r, {TIMESTAMP_KEY})
  {
    if WriteTimestamp in faults then s else Set(s, TIMESTAMP_KEY, LongToString(epochSeconds))
  }

  /**
    `updateLastFetchTimestamp(long)`. The lock token is
    `String.valueOf(token)`, where `token` is the caller's
    `currentTimeMillis`. With the lock: write, then release it if it still
    holds the token (the release runs even when the write throws). Without
    the lock: write anyway. The read-back after the write only logs, so it
    is left out.
   */
  function UpdateLastFetchTimestamp(s: Store, epochSeconds: int, token: int, now: int, faults: set<Call>): (r: Store)
    ensures SameOutside(s, r, {TIMESTAMP_KEY, LOCK_KEY})
  {
    var lockValue := LongToString(token);
    if AcquireLock in faults then s
    else
      var (acquired, locked) := TryLock(s, lockValue, now);
      var written := WriteValue(locked, epochSeconds, faults);
      if acquired then ReleaseLock(written, lockValue, now, faults) else written
  }

  /** `reset`: deletes the timestamp, then the lock; a throwing delete stops the sequence. */
  function Reset(s: Store, faults: set<Call>): (r: Store)
    ensures DeleteTimestamp in faults ==> r == s
    ensures DeleteTimestamp !in faults ==> TIMESTAMP_KEY !in r
    ensures DeleteTimestamp !in faults && DeleteLock !in faults ==> LOCK_KEY !in r
    ensures DeleteTimestamp !in faults && DeleteLock in faults ==> SameOutside(s, r, {TIMESTAMP_KEY})
    ensures SameOutside(s, r, {TIMESTAMP_KEY, LOCK_KEY})
  {
    if DeleteTimestamp in faults then s
    else
      var cleared := Delete(s, TIMESTAMP_KEY);
      if DeleteLock in faults then cleared else Delete(cleared, LOCK_KEY)
  }

  /**
    Writing a timestamp and reading it back, at any later time, gives the
    value written, whether or not the lock was obtained: only a throwing lock
    attempt or write loses the update.
   */
  lemma UpdateThenGet(s: Store, epochSeconds: int, token: int, now: int, faults: set<Call>, later: int, readFaults: set<Call>)
    requires InLongRange(epochSeconds) && InInstantRange(epochSeconds)
    requires AcquireLock !in faults && WriteTimestamp !in faults
    requires ReadTimestamp !in readFaults
    ensures GetLastFetchTimestamp(UpdateLastFetchTimestamp(s, epochSeconds, token, now, faults), later, readFaults) == epochSeconds
  {
    var lockValue := LongToString(token);
    var (acquired, locked) := TryLock(s, lockValue, now);
    var written := WriteValue(locked, epochSeconds, faults);
    var r := UpdateLastFetchTimestamp(s, epochSeconds, token, now, faults);
    assert r == written || r == Delete(written, LOCK_KEY);
    assert Get(r, TIMESTAMP_KEY, later) == Some(LongToString(epochSeconds));
    LongRoundTrip(epochSeconds);
  }

  /** A throwing lock attempt leaves the store as it was. */
  lemma UpdateLostWhenLockCallFails(s: Store, epochSeconds: int, token: int, now: int, faults: set<Call>)
    requires AcquireLock in faults
    ensures UpdateLastFetchTimestamp(s, epochSeconds, token, now, faults) == s
  {
  }

  /**
    A caller that obtains the lock gives it up again: when the lock calls
    do not throw, no lock is left behind, even if the write itself threw.
   */
  lemma UpdateReleasesOwnLock(s: Store, epochSeconds: int, token: int, now: int, faults: set<Call>)
    requires !LockHeld(s, now)
    requires AcquireLock !in faults && ReadLock !in faults && DeleteLock !in faults
    ensures LOCK_KEY !in UpdateLastFetchTimestamp(s, epochSeconds, token, now, faults)
  {
    var lockValue := LongToString(token);
    var (acquired, locked) := TryLock(s, lockValue, now);
    var written := WriteValue(locked, epochSeconds, faults);
    assert LOCK_KEY in written && written[LOCK_KEY] == locked[LOCK_KEY];
    assert Get(written, LOCK_KEY, now) == Some(lockValue);
  }

  /**
    A caller that finds another holder's live lock writes without it and
    leaves that lock exactly as it was.
   */
  lemma UpdateKeepsForeignLock(s: Store, epochSeconds: int, token: int, now: int, faults: set<Call>)
    requires LockHeld(s, now)
    ensures LOCK_KEY in UpdateLastFetchTimestamp(s, epochSeconds, token, now, faults)
    ensures UpdateLastFetchTimestamp(s, epochSeconds, token, now, faults)[LOCK_KEY] == s[LOCK_KEY]
  {
    var r := UpdateLastFetchTimestamp(s, epochSeconds, token, now, faults);
    if AcquireLock !in faults {
      var (acquired, locked) := TryLock(s, LongToString(token), now);
      assert !acquired && locked == s;
    }
  }

  /**
    A lock that is never released (its holder died) blocks other callers
    for the 30-second timeout: a later attempt succeeds if and only if it
    comes at least 30 s after the lock was taken.
   */
  lemma LockExpiresAfterTimeout(s: Store, first: string, taken: int, second: string, attempt: int)
    requires !LockHeld(s, taken)
    ensures TryLock(TryLock(s, first, taken).1, second, attempt).0 <==> attempt >= taken + 30000
  {
    var locked := TryLock(s, first, taken).1;
    assert locked[LOCK_KEY] == Entry(first, Some(taken + LOCK_TTL_MILLIS));
  }

  /** Releasing with a token other than the stored one never removes the lock. */
  lemma ReleaseNeedsOwnToken(s: Store, lockValue: string, now: int, faults: set<Call>)
    requires LockHeld(s, now)
    ensures LOCK_KEY !in ReleaseLock(s, lockValue, now, faults) ==> Get(s, LOCK_KEY, now) == Some(lockValue)
  {
  }

  /** After a reset whose deletes both succeed, the timestamp reads as 0 and no lock is held. */
  lemma ResetClears(s: Store, faults: set<Call>, later: int, readFaults: set<Call>)
    requires DeleteTimestamp !in faults && DeleteLock !in faults
    ensures GetLastFetchTimestamp(Reset(s, faults), later, readFaults) == 0
    ensures GetLastFetchInstant(Reset(s, faults), later, readFaults).None?
    ensures !LockHeld(Reset(s, faults), later)
  {
  }

  /**
    A `long` beyond `Instant`'s range is written and stored, but reads back
    as 0, the "fetch everything" value.
   */
  lemma HugeTimestampReadsAsZero(s: Store, epochSeconds: int, token: int, now: int, faults: set<Call>, later: int, readFaults: set<Call>)
    requires InLongRange(epochSeconds) && !InInstantRange(epochSeconds)
    requires AcquireLock !in faults && WriteTimestamp !in faults
    ensures Get(UpdateLastFetchTimestamp(s, epochSeconds, token, now, faults), TIMESTAMP_KEY, later) == Some(LongToString(epochSeconds))
    ensures GetLastFetchTimestamp(UpdateLastFetchTimestamp(s, epochSeconds, token, now, faults), later, readFaults) == 0
  {
    var lockValue := LongToString(token);
    var (acquired, locked) := TryLock(s, lockValue, now);
    var written := WriteValue(locked, epochSeconds, faults);
    var r := UpdateLastFetchTimestamp(s, epochSeconds, token, now, faults);
    assert r == written || r == Delete(written, LOCK_KEY);
    assert Get(r, TIMESTAMP_KEY, later) == Some(LongToString(epochSeconds));
    LongRoundTrip(epochSeconds);
  }
}
