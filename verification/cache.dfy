/** The key-value cache with per-entry expiry that holds the per-sender rate counters.
    Time is an integer tick (seconds) passed in by the caller; an entry written at
    `now` with timeout `t` reads as present while the clock is below `now + t`.
 */
module Cache {

  /** A stored value together with the first instant at which it reads as absent. */
  datatype Entry = Entry(value: int, expires: int)

  /** The entry under `key` exists and has not yet expired at `now`. */
  predicate Live<K>(c: map<K, Entry>, key: K, now: int) {
    key in c && now < c[key].expires
  }

  /** `cache.get(key, default)` at time `now`. */
  function Get<K>(c: map<K, Entry>, key: K, default: int, now: int): (r: int)
    ensures key !in c ==> r == default
    ensures key in c && c[key].expires <= now ==> r == default
    ensures key in c && now < c[key].expires ==> r == c[key].value
  {
    if Live(c, key, now) then c[key].value else default
  }

  /** `cache.set(key, value, timeout)` at time `now`: the value is read back for the
      next `timeout` ticks and then reads as absent; every other key is untouched. */
  function Set<K(!new)>(c: map<K, Entry>, key: K, value: int, timeout: int, now: int): (r: map<K, Entry>)
    ensures forall t, d :: now <= t < now + timeout ==> Get(r, key, d, t) == value
    ensures forall t, d :: now + timeout <= t ==> Get(r, key, d, t) == d
    ensures forall k, t, d :: k != key ==> Get(r, k, d, t) == Get(c, k, d, t)
  {
    c[key := Entry(value, now + timeout)]
  }
}
