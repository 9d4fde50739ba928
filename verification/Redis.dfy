/**
 The Redis commands the library relies on, as functions on a keyspace.  A key is
 dead from its deadline onward; a dead key reads as missing.
 */
module Redis {
  import opened Wrappers

  datatype Cell<+V> = Cell(value: V, deadline: Option<int>)

  type Keyspace<K, V> = map<K, Cell<V>>

  predicate Live<V>(c: Cell<V>, now: int) {
    c.deadline.Some? ==> now < c.deadline.value
  }

  predicate Exists<K, V>(db: Keyspace<K, V>, key: K, now: int) {
    key in db && Live(db[key], now)
  }

  function Get<K, V>(db: Keyspace<K, V>, key: K, now: int): Option<V> {
    if Exists(db, key, now) then Some(db[key].value) else None
  }

  // GET of a counter, with a missing key read as zero.
  function Count<K>(db: Keyspace<K, int>, key: K, now: int): int {
    if Exists(db, key, now) then db[key].value else 0
  }

  // The remaining milliseconds; -2 for a missing key and -1 for one without deadline.
  function Pttl<K, V>(db: Keyspace<K, V>, key: K, now: int): int {
    if !Exists(db, key, now) then -2
    else if db[key].deadline.None? then -1
    else db[key].deadline.value - now
  }

  // INCRBY and DECRBY keep the deadline of a live key and create a missing one without deadline.
  function IncrBy<K>(db: Keyspace<K, int>, key: K, delta: int, now: int): Keyspace<K, int> {
    db[key := if Exists(db, key, now) then db[key].(value := db[key].value + delta) else Cell(delta, None)]
  }

  // EXPIRE and PEXPIRE: a time to live that is not positive removes the key.
  function Expire<K, V>(db: Keyspace<K, V>, key: K, ttl: int, now: int): Keyspace<K, V> {
    if !Exists(db, key, now) then db
    else if ttl <= 0 then db - {key}
    else db[key := db[key].(deadline := Some(now + ttl))]
  }

  function Set<K, V>(db: Keyspace<K, V>, key: K, value: V, deadline: Option<int>): Keyspace<K, V> {
    db[key := Cell(value, deadline)]
  }
}
