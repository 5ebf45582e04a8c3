/** What set, get and del mean for a finite map whose entries expire, and whose size is bounded. */
module TableSpec {
  import opened Arena

  datatype Entry = Entry(value: int, ttl: int, death: int)

  datatype Reply = Done | Value(value: int) | NoKey | NoMemory | NotExists

  type Store = map<int, Entry>

  predicate Expired(e: Entry, now: int) {
    e.death < now
  }

  function Set(s: Store, key: int, ttl: int, value: int, now: int): (Store, Reply) {
    if key in s || |s| < BUFFER_SIZE
    then (s[key := Entry(value, ttl, now + ttl)], Done)
    else (s, NoMemory)
  }

  /** A lookup reads the clock twice: to judge the entry, and to extend its life. */
  function Get(s: Store, key: int, now: int, later: int): (Store, Reply) {
    if key !in s then (s, NoKey)
    else if Expired(s[key], now) then (s - {key}, NotExists)
    else (s[key := s[key].(death := later + s[key].ttl)], Value(s[key].value))
  }

  function Del(s: Store, key: int, now: int): (Store, Reply) {
    if key !in s then (s, NoKey)
    else (s - {key}, if Expired(s[key], now) then NotExists else Done)
  }
}
