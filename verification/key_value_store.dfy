/**
  The part of Redis the timestamp tracker relies on: string values under
  string keys, an optional expiry, GET, plain SET, SET NX with a
  time-to-live, and DEL. The store's clock is a parameter (milliseconds);
  an entry whose expiry is not later than the clock reads as absent.
 */
module KeyValueStore {
  import opened Wrappers

  /** A stored value and, when it was set with a time-to-live, the time at which it expires. */
  datatype Entry = Entry(value: string, expiresAt: Option<int>)

  type Store = map<string, Entry>

  predicate Live(e: Entry, now: int) {
    e.expiresAt.None? || e.expiresAt.value > now
  }

  /** GET: the value of a present, unexpired key. */
  function Get(s: Store, key: string, now: int): (r: Option<string>)
    ensures r.Some? <==> key in s && Live(s[key], now)
    ensures r.Some? ==> r.value == s[key].value
  {
    if key in s && Live(s[key], now) then Some(s[key].value) else None
  }

  /** SET with no options: stores the value and clears any expiry. */
  function Set(s: Store, key: string, value: string): (r: Store)
    ensures r.Keys == s.Keys + {key}
    ensures forall now :: Get(r, key, now) == Some(value)
    ensures forall k :: k in s && k != key ==> r[k] == s[k]
  {
    s[key := Entry(value, None)]
  }

  /** SET NX PX: stores the value with an expiry only when the key reads as absent. */
  function SetIfAbsent(s: Store, key: string, value: string, ttlMillis: nat, now: int): (r: (bool, Store))
    ensures r.0 <==> Get(s, key, now).None?
    ensures r.0 ==> r.1 == s[key := Entry(value, Some(now + ttlMillis))]
    ensures !r.0 ==> r.1 == s
  {
    if Get(s, key, now).None? then (true, s[key := Entry(value, Some(now + ttlMillis))]) else (false, s)
  }

  /** DEL. */
  function Delete(s: Store, key: string): (r: Store)
    ensures key !in r
    ensures r.Keys == s.Keys - {key}
    ensures forall k :: k in r ==> r[k] == s[k]
  {
    map k | k in s && k != key :: s[k]
  }

  /** Keys other than `keys` are present in `r` exactly when in `s`, with the same entries. */
  ghost predicate SameOutside(s: Store, r: Store, keys: set<string>) {
    forall k :: k !in keys ==> (k in r <==> k in s) && (k in s ==> r[k] == s[k])
  }
}
