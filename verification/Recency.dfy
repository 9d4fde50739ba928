/**
 The LRU cache of cache/lru.go as a recency list: most recently used entry first.
 The operations are functions on the list; the theorems compare whole runs.
 */
module Recency {
  import opened Wrappers

  // `expiresAt` is None when the cache has no positive ttl.
  datatype Entry<K, V> = Entry(key: K, value: V, expiresAt: Option<int>)

  datatype Op<K, V> =
    | Get(now: int, key: K)
    | Set(now: int, key: K, value: V)
    | Delete(key: K)
    | Purge

  predicate Expired<K, V>(e: Entry<K, V>, now: int) {
    e.expiresAt.Some? && now > e.expiresAt.value
  }

  function Fresh<K, V>(ttl: int, now: int, key: K, value: V): Entry<K, V> {
    Entry(key, value, if ttl > 0 then Some(now + ttl) else None)
  }

  function Find<K(==), V>(s: seq<Entry<K, V>>, key: K): Option<Entry<K, V>> {
    if s == [] then None else if s[0].key == key then Some(s[0]) else Find(s[1..], key)
  }

  function Without<K(==), V>(s: seq<Entry<K, V>>, key: K): seq<Entry<K, V>> {
    if s == [] then [] else if s[0].key == key then Without(s[1..], key) else [s[0]] + Without(s[1..], key)
  }

  function Evict<K, V>(capacity: int, s: seq<Entry<K, V>>): seq<Entry<K, V>> {
    if s != [] && |s| > capacity then s[..|s| - 1] else s
  }

  /** One call: the new list and, for a Get, the value of a hit. */
  function Step<K(==), V>(capacity: int, ttl: int, s: seq<Entry<K, V>>, op: Op<K, V>)
    : (seq<Entry<K, V>>, Option<V>)
  {
    match op
    case Purge => ([], None)
    case Delete(key) => (if capacity <= 0 then s else Without(s, key), None)
    case Set(now, key, value) =>
      if capacity <= 0 then (s, None)
      else
        var t := [Fresh(ttl, now, key, value)] + Without(s, key);
        (if Find(s, key).Some? then t else Evict(capacity, t), None)
    case Get(now, key) =>
      if capacity <= 0 then (s, None)
      else
        match Find(s, key)
        case None => (s, None)
        case Some(e) =>
          if Expired(e, now) then (Without(s, key), None) else ([e] + Without(s, key), Some(e.value))
  }

  function RunFrom<K(==), V>(capacity: int, ttl: int, s: seq<Entry<K, V>>, ops: seq<Op<K, V>>): seq<Entry<K, V>> {
    if ops == [] then s
    else Step(capacity, ttl, RunFrom(capacity, ttl, s, ops[..|ops| - 1]), ops[|ops| - 1]).0
  }

  /** The list after a run on a new cache. */
  function Run<K(==), V>(capacity: int, ttl: int, ops: seq<Op<K, V>>): seq<Entry<K, V>> {
    RunFrom(capacity, ttl, [], ops)
  }

  /** What the i-th call of a run returns. */
  function Outcome<K(==), V>(capacity: int, ttl: int, ops: seq<Op<K, V>>, i: nat): Option<V>
    requires i < |ops|
  {
    Step(capacity, ttl, Run(capacity, ttl, ops[..i]), ops[i]).1
  }

  // ---------- Well-formed lists ----------

  ghost predicate Distinct<K, V>(s: seq<Entry<K, V>>) {
    s == [] || (Find(s[1..], s[0].key).None? && Distinct(s[1..]))
  }

  ghost predicate Wf<K, V>(capacity: int, s: seq<Entry<K, V>>) {
    Distinct(s) && |s| <= Max(capacity, 0)
  }

  lemma {:induction false} FindWithout<K, V>(s: seq<Entry<K, V>>, key: K, other: K)
    ensures Find(Without(s, key), other) == if key == other then None else Find(s, other)
  {
    if s != [] {
      FindWithout(s[1..], key, other);
    }
  }

  lemma {:induction false} WithoutDistinct<K, V>(s: seq<Entry<K, V>>, key: K)
    requires Distinct(s)
    ensures Distinct(Without(s, key))
    ensures |Without(s, key)| == if Find(s, key).Some? then |s| - 1 else |s|
    ensures Find(s, key).None? ==> Without(s, key) == s
  {
    if s != [] {
      WithoutDistinct(s[1..], key);
      FindWithout(s[1..], key, s[0].key);
    }
  }

  lemma {:induction false} FindButLast<K, V>(s: seq<Entry<K, V>>, key: K)
    requires Distinct(s) && s != []
    ensures Distinct(s[..|s| - 1])
    ensures Find(s[..|s| - 1], key) == if s[|s| - 1].key == key then None else Find(s, key)
    ensures s[|s| - 1].key == key ==> Find(s, key) == Some(s[|s| - 1])
  {
    if |s| > 1 {
      var rest := s[1..];
      assert s[..|s| - 1][1..] == rest[..|rest| - 1];
      FindButLast(rest, key);
      FindButLast(rest, s[0].key);
    }
  }

  lemma {:induction false} FindKey<K, V>(s: seq<Entry<K, V>>, key: K)
    ensures Find(s, key).Some? ==> Find(s, key).value.key == key && Find(s, key).value in s
  {
    if s != [] {
      FindKey(s[1..], key);
    }
  }

  lemma StepWf<K, V>(capacity: int, ttl: int, s: seq<Entry<K, V>>, op: Op<K, V>)
    requires Wf(capacity, s)
    ensures Wf(capacity, Step(capacity, ttl, s, op).0)
  {
    if !op.Purge? && capacity > 0 {
      WithoutDistinct(s, op.key);
      FindWithout(s, op.key, op.key);
      FindKey(s, op.key);
      if op.Set? {
        var t := [Fresh(ttl, op.now, op.key, op.value)] + Without(s, op.key);
        assert t[1..] == Without(s, op.key);
        FindButLast(t, op.key);
      } else if op.Get? && Find(s, op.key).Some? {
        var t := [Find(s, op.key).value] + Without(s, op.key);
        assert t[1..] == Without(s, op.key);
      }
    }
  }

  /** Keys are unique and the length is within capacity after every run. */
  lemma {:induction false} RunWf<K, V>(capacity: int, ttl: int, ops: seq<Op<K, V>>)
    ensures Wf(capacity, Run(capacity, ttl, ops))
  {
    if ops != [] {
      RunWf(capacity, ttl, ops[..|ops| - 1]);
      StepWf(capacity, ttl, Run(capacity, ttl, ops[..|ops| - 1]), ops[|ops| - 1]);
    }
  }

  // ---------- What one call does to the order ----------

  // The call uses its key: a Set, or a Get that hits.
  predicate Uses<K(==), V>(capacity: int, ttl: int, s: seq<Entry<K, V>>, op: Op<K, V>) {
    op.Set? || (op.Get? && Step(capacity, ttl, s, op).1.Some?)
  }

  /**
   A Set and a Get that hits leave their key in front, with the value set or returned; after
   a Get that misses, and after a Delete, the key is not in the list.
   */
  lemma CallPlacesItsKey<K, V>(capacity: int, ttl: int, s: seq<Entry<K, V>>, op: Op<K, V>)
    requires capacity > 0 && Wf(capacity, s) && !op.Purge?
    ensures
      var (s', hit) := Step(capacity, ttl, s, op);
      if Uses(capacity, ttl, s, op) then
        && s' != [] && s'[0].key == op.key && Find(s', op.key) == Some(s'[0])
        && s'[0].value == if op.Set? then op.value else hit.value
      else Find(s', op.key).None?
  {
    FindKey(s, op.key);
    FindWithout(s, op.key, op.key);
  }

  lemma WithoutNew<K, V>(e: Entry<K, V>, t: seq<Entry<K, V>>)
    requires Distinct(t) && Find(t, e.key).None?
    ensures Without([e] + t, e.key) == t
  {
    assert ([e] + t)[1..] == t;
    WithoutDistinct(t, e.key);
  }

  // The list of a Set before eviction.
  function Pushed<K(==), V>(ttl: int, s: seq<Entry<K, V>>, op: Op<K, V>): seq<Entry<K, V>>
    requires op.Set?
  {
    [Fresh(ttl, op.now, op.key, op.value)] + Without(s, op.key)
  }

  lemma SetPushes<K, V>(capacity: int, ttl: int, s: seq<Entry<K, V>>, op: Op<K, V>)
    requires capacity > 0 && Wf(capacity, s) && op.Set?
    ensures
      var u := Pushed(ttl, s, op);
      && Distinct(u) && u[1..] == Without(s, op.key) && Find(u, op.key).Some?
      && (|u| > capacity <==> Find(s, op.key).None? && |s| == capacity)
      && (|u| > capacity ==> |u| == capacity + 1 && Without(s, op.key) == s)
      && Step(capacity, ttl, s, op).0 == if |u| > capacity then u[..capacity] else u
  {
    WithoutDistinct(s, op.key);
    FindWithout(s, op.key, op.key);
    assert Pushed(ttl, s, op)[1..] == Without(s, op.key);
  }

  lemma SetKeepsTheOthers<K, V>(capacity: int, ttl: int, s: seq<Entry<K, V>>, op: Op<K, V>)
    requires capacity > 0 && Wf(capacity, s) && op.Set?
    ensures Without(Step(capacity, ttl, s, op).0, op.key) ==
            if Find(s, op.key).None? && |s| == capacity then s[..capacity - 1] else Without(s, op.key)
  {
    var u := Pushed(ttl, s, op);
    SetPushes(capacity, ttl, s, op);
    if |u| > capacity {
      FindButLast(s, op.key);
      assert u[..capacity] == [u[0]] + s[..capacity - 1];
      WithoutNew(u[0], s[..capacity - 1]);
    } else {
      FindWithout(s, op.key, op.key);
      WithoutNew(u[0], Without(s, op.key));
    }
  }

  /** Every other entry keeps its place; one is dropped, the last, exactly by a Set of a new key on a full list. */
  lemma CallKeepsTheOthers<K, V>(capacity: int, ttl: int, s: seq<Entry<K, V>>, op: Op<K, V>)
    requires capacity > 0 && Wf(capacity, s) && !op.Purge?
    ensures Without(Step(capacity, ttl, s, op).0, op.key) ==
            if op.Set? && Find(s, op.key).None? && |s| == capacity then s[..capacity - 1] else Without(s, op.key)
  {
    if op.Set? {
      SetKeepsTheOthers(capacity, ttl, s, op);
    } else {
      WithoutDistinct(s, op.key);
      FindWithout(s, op.key, op.key);
      WithoutDistinct(Without(s, op.key), op.key);
      if Find(s, op.key).Some? {
        FindKey(s, op.key);
        WithoutNew(Find(s, op.key).value, Without(s, op.key));
      }
    }
  }

  // ---------- A bigger cache keeps every hit of a smaller one ----------

  ghost predicate Subsequence<T>(a: seq<T>, b: seq<T>) {
    if a == [] then true
    else if b == [] then false
    else if a[0] == b[0] then Subsequence(a[1..], b[1..])
    else Subsequence(a, b[1..])
  }

  lemma {:induction false} SubsequenceTail<T>(a: seq<T>, b: seq<T>)
    requires a != [] && Subsequence(a, b)
    ensures Subsequence(a[1..], b)
    decreases |b|
  {
    if a[0] == b[0] {
      if |a| > 1 {
        SubsequenceTail(a[1..], b[1..]);
      }
    } else {
      SubsequenceTail(a, b[1..]);
      if |a| > 1 {
        SubsequenceTail(a[1..], b[1..]);
      }
    }
  }

  lemma {:induction false} SubsequenceCons<T>(x: T, a: seq<T>, b: seq<T>)
    requires Subsequence(a, b)
    ensures Subsequence([x] + a, [x] + b) && Subsequence(a, [x] + b)
  {
    assert ([x] + a)[1..] == a && ([x] + b)[1..] == b;
    if a != [] && a[0] == x {
      SubsequenceTail(a, b);
    }
  }

  lemma {:induction false} SubsequenceFind<K, V>(a: seq<Entry<K, V>>, b: seq<Entry<K, V>>, key: K)
    requires Subsequence(a, b) && Distinct(b)
    ensures Find(a, key).Some? ==> Find(b, key) == Find(a, key)
    decreases |b|
  {
    if a != [] {
      if a[0] == b[0] {
        SubsequenceFind(a[1..], b[1..], key);
      } else {
        SubsequenceFind(a, b[1..], key);
        if b[0].key == key {
          FindKey(a, key);
        }
      }
    }
  }

  lemma {:induction false} SubsequenceWithout<K, V>(a: seq<Entry<K, V>>, b: seq<Entry<K, V>>, key: K)
    requires Subsequence(a, b)
    ensures Subsequence(Without(a, key), Without(b, key))
    decreases |b|
  {
    if a != [] {
      if a[0] == b[0] {
        SubsequenceWithout(a[1..], b[1..], key);
        SubsequenceCons(a[0], Without(a[1..], key), Without(b[1..], key));
      } else {
        SubsequenceWithout(a, b[1..], key);
        SubsequenceCons(b[0], Without(a, key), Without(b[1..], key));
      }
    }
  }

  // Dropping the last entry of the shorter list, or of both, keeps the order relation.
  lemma {:induction false} SubsequenceButLast<T>(a: seq<T>, b: seq<T>)
    requires a != [] && Subsequence(a, b)
    ensures b != []
    ensures Subsequence(a[..|a| - 1], b) && Subsequence(a[..|a| - 1], b[..|b| - 1])
    decreases |b|
  {
    var a', b' := a[..|a| - 1], b[..|b| - 1];
    if a[0] == b[0] {
      if |a| > 1 {
        SubsequenceButLast(a[1..], b[1..]);
        assert a'[1..] == a[1..][..|a| - 2] && b'[1..] == b[1..][..|b| - 2];
      }
    } else {
      SubsequenceButLast(a, b[1..]);
      assert b'[1..] == b[1..][..|b| - 2];
      if a' != [] {
        assert a'[0] == a[0];
      }
    }
  }

  /** The smaller list `a` lies inside the larger list `b`, and `b` is full only when `a` is. */
  ghost predicate Included<K, V>(k: int, a: seq<Entry<K, V>>, m: int, b: seq<Entry<K, V>>) {
    && Wf(k, a) && Wf(m, b)
    && Subsequence(a, b)
    && (k > 0 ==> |b| - |a| <= m - k)
  }

  lemma SetKeepsIncluded<K, V>(k: int, a: seq<Entry<K, V>>, m: int, b: seq<Entry<K, V>>, e: Entry<K, V>)
    requires 0 < k <= m && Included(k, a, m, b)
    ensures
      var a', b' := [e] + Without(a, e.key), [e] + Without(b, e.key);
      var a'' := if Find(a, e.key).Some? then a' else Evict(k, a');
      var b'' := if Find(b, e.key).Some? then b' else Evict(m, b');
      Subsequence(a'', b'') && |b''| - |a''| <= m - k
  {
    WithoutDistinct(a, e.key);
    WithoutDistinct(b, e.key);
    SubsequenceFind(a, b, e.key);
    SubsequenceWithout(a, b, e.key);
    var a', b' := [e] + Without(a, e.key), [e] + Without(b, e.key);
    SubsequenceCons(e, Without(a, e.key), Without(b, e.key));
    SubsequenceButLast(a', b');
  }

  lemma StepKeepsIncluded<K, V>(
    k: int, a: seq<Entry<K, V>>, m: int, b: seq<Entry<K, V>>, ttl: int, op: Op<K, V>)
    requires k <= m && Included(k, a, m, b)
    ensures Included(k, Step(k, ttl, a, op).0, m, Step(m, ttl, b, op).0)
    ensures Step(k, ttl, a, op).1.Some? ==> Step(m, ttl, b, op).1 == Step(k, ttl, a, op).1
  {
    StepWf(k, ttl, a, op);
    StepWf(m, ttl, b, op);
    if k > 0 && !op.Purge? {
      WithoutDistinct(a, op.key);
      WithoutDistinct(b, op.key);
      SubsequenceFind(a, b, op.key);
      SubsequenceWithout(a, b, op.key);
      if op.Set? {
        SetKeepsIncluded(k, a, m, b, Fresh(ttl, op.now, op.key, op.value));
      } else if op.Get? && Find(b, op.key).Some? {
        SubsequenceCons(Find(b, op.key).value, Without(a, op.key), Without(b, op.key));
      }
    }
  }

  /**
   Inclusion: under the same calls, clock and ttl, the list of a cache of capacity k
   stays a subsequence of that of any cache of capacity m >= k.
   */
  lemma {:induction false} RunsIncluded<K, V>(k: int, m: int, ttl: int, ops: seq<Op<K, V>>)
    requires k <= m
    ensures Included(k, Run(k, ttl, ops), m, Run(m, ttl, ops))
  {
    if ops != [] {
      var init := ops[..|ops| - 1];
      RunsIncluded(k, m, ttl, init);
      StepKeepsIncluded(k, Run(k, ttl, init), m, Run(m, ttl, init), ttl, ops[|ops| - 1]);
    }
  }

  /** Every hit of the smaller cache is the same hit of the larger one. */
  lemma BiggerCacheKeepsHits<K, V>(k: int, m: int, ttl: int, ops: seq<Op<K, V>>, i: nat)
    requires k <= m && i < |ops|
    requires Outcome(k, ttl, ops, i).Some?
    ensures Outcome(m, ttl, ops, i) == Outcome(k, ttl, ops, i)
  {
    RunsIncluded(k, m, ttl, ops[..i]);
    StepKeepsIncluded(k, Run(k, ttl, ops[..i]), m, Run(m, ttl, ops[..i]), ttl, ops[i]);
  }

  // ---------- Retention ----------

  // The keys used more recently than `key`.
  ghost function Ahead<K, V>(s: seq<Entry<K, V>>, key: K): set<K> {
    if s == [] || s[0].key == key then {} else {s[0].key} + Ahead(s[1..], key)
  }

  lemma {:induction false} AheadWithout<K, V>(s: seq<Entry<K, V>>, key: K, other: K)
    requires key != other
    ensures Ahead(Without(s, other), key) == Ahead(s, key) - {other}
  {
    if s != [] {
      AheadWithout(s[1..], key, other);
      if s[0].key != other {
        var t := Without(s, other);
        assert t[1..] == Without(s[1..], other);
      }
    }
  }

  lemma {:induction false} AheadKnown<K, V>(s: seq<Entry<K, V>>, key: K, other: K)
    requires other in Ahead(s, key)
    ensures Find(s, other).Some?
  {
    if s[0].key != other {
      AheadKnown(s[1..], key, other);
    }
  }

  // An entry that is the last of a list has all the others ahead of it.
  lemma {:induction false} AheadOfLast<K, V>(s: seq<Entry<K, V>>, key: K)
    requires Distinct(s) && s != [] && s[|s| - 1].key == key
    ensures |Ahead(s, key)| == |s| - 1
  {
    if |s| > 1 {
      var rest := s[1..];
      AheadOfLast(rest, key);
      FindButLast(rest, key);
      if s[0].key in Ahead(rest, key) {
        AheadKnown(rest, key, s[0].key);
      }
    }
  }

  lemma {:induction false} AheadButLast<K, V>(s: seq<Entry<K, V>>, key: K)
    requires Find(s, key).Some? && s[|s| - 1].key != key
    ensures Ahead(s[..|s| - 1], key) == Ahead(s, key)
  {
    if s[0].key != key {
      assert s[..|s| - 1][1..] == s[1..][..|s| - 2];
      AheadButLast(s[1..], key);
    }
  }

  // The key a call moves to the front: that of a Set, or of a Get that hits.
  ghost function Touches<K, V>(capacity: int, ttl: int, s: seq<Entry<K, V>>, op: Op<K, V>): set<K> {
    if Uses(capacity, ttl, s, op) then {op.key} else {}
  }

  ghost function Touched<K, V>(capacity: int, ttl: int, s: seq<Entry<K, V>>, ops: seq<Op<K, V>>): set<K> {
    if ops == [] then {}
    else
      var init := ops[..|ops| - 1];
      Touched(capacity, ttl, s, init) + Touches(capacity, ttl, RunFrom(capacity, ttl, s, init), ops[|ops| - 1])
  }

  // A key with room behind it survives the removal of the last entry.
  lemma DropLastRetains<K, V>(capacity: int, s: seq<Entry<K, V>>, key: K, used: set<K>)
    requires Find(s, key).Some? && Distinct(s) && Ahead(s, key) <= used && |used| < capacity < |s|
    ensures Find(s[..|s| - 1], key) == Find(s, key) && Ahead(s[..|s| - 1], key) <= used
  {
    FindButLast(s, key);
    if s[|s| - 1].key == key {
      AheadOfLast(s, key);
    } else {
      AheadButLast(s, key);
    }
    CardinalityOf(Ahead(s, key), used);
  }

  lemma SetRetains<K, V>(capacity: int, ttl: int, s: seq<Entry<K, V>>, op: Op<K, V>, key: K, used: set<K>)
    requires capacity > 0 && Wf(capacity, s) && Find(s, key).Some? && Ahead(s, key) <= used
    requires op.Set? && op.key != key && |used + {op.key}| < capacity
    ensures
      var s' := Step(capacity, ttl, s, op).0;
      Find(s', key) == Find(s, key) && Ahead(s', key) <= used + {op.key}
  {
    var t := Without(s, op.key);
    var u := [Fresh(ttl, op.now, op.key, op.value)] + t;
    assert u[1..] == t;
    FindWithout(s, op.key, key);
    FindWithout(s, op.key, op.key);
    AheadWithout(s, key, op.key);
    WithoutDistinct(s, op.key);
    assert Ahead(u, key) <= used + {op.key};
    if |u| > capacity {
      DropLastRetains(capacity, u, key, used + {op.key});
    }
  }

  lemma StepRetains<K, V>(capacity: int, ttl: int, s: seq<Entry<K, V>>, op: Op<K, V>, key: K, used: set<K>)
    requires capacity > 0 && Wf(capacity, s)
    requires Find(s, key).Some? && Ahead(s, key) <= used
    requires !op.Purge? && op.key != key
    requires |used + Touches(capacity, ttl, s, op)| < capacity
    ensures
      var s' := Step(capacity, ttl, s, op).0;
      Find(s', key) == Find(s, key) && Ahead(s', key) <= used + Touches(capacity, ttl, s, op)
  {
    if op.Set? {
      SetRetains(capacity, ttl, s, op, key, used);
    } else {
      var t := Without(s, op.key);
      FindWithout(s, op.key, key);
      AheadWithout(s, key, op.key);
      FindKey(s, op.key);
      if op.Get? && Find(s, op.key).Some? {
        assert ([Find(s, op.key).value] + t)[1..] == t;
      }
    }
  }

  lemma {:induction false} CardinalityOf<T>(a: set<T>, b: set<T>)
    requires a <= b
    ensures |a| <= |b|
  {
    assert b == a + (b - a) && a !! (b - a);
  }

  lemma {:induction false} RunRetains<K, V>(
    capacity: int, ttl: int, s: seq<Entry<K, V>>, ops: seq<Op<K, V>>, key: K)
    requires capacity > 0 && Wf(capacity, s)
    requires Find(s, key).Some? && Ahead(s, key) == {}
    requires forall i | 0 <= i < |ops| :: !ops[i].Purge? && ops[i].key != key
    requires |Touched(capacity, ttl, s, ops)| < capacity
    ensures
      var s' := RunFrom(capacity, ttl, s, ops);
      Wf(capacity, s') && Find(s', key) == Find(s, key) && Ahead(s', key) <= Touched(capacity, ttl, s, ops)
  {
    if ops != [] {
      var init, op := ops[..|ops| - 1], ops[|ops| - 1];
      CardinalityOf(Touched(capacity, ttl, s, init), Touched(capacity, ttl, s, ops));
      RunRetains(capacity, ttl, s, init, key);
      var mid := RunFrom(capacity, ttl, s, init);
      StepRetains(capacity, ttl, mid, op, key, Touched(capacity, ttl, s, init));
      StepWf(capacity, ttl, mid, op);
    }
  }

  // ---------- What a hit returns ----------

  /** The latest Set of `key` with no Delete or Purge since: its value and time. */
  ghost function LatestSet<K, V>(ops: seq<Op<K, V>>, key: K): Option<(V, int)> {
    if ops == [] then None
    else
      match ops[|ops| - 1]
      case Purge => None
      case Delete(k) => if k == key then None else LatestSet(ops[..|ops| - 1], key)
      case Set(now, k, v) => if k == key then Some((v, now)) else LatestSet(ops[..|ops| - 1], key)
      case Get(_, _) => LatestSet(ops[..|ops| - 1], key)
  }

  lemma FindAfterStep<K, V>(capacity: int, ttl: int, s: seq<Entry<K, V>>, op: Op<K, V>, key: K)
    requires Wf(capacity, s)
    requires Find(Step(capacity, ttl, s, op).0, key).Some?
    ensures !op.Purge? && !(op.Delete? && op.key == key)
    ensures
      Find(Step(capacity, ttl, s, op).0, key) ==
      if op.Set? && op.key == key then Some(Fresh(ttl, op.now, key, op.value)) else Find(s, key)
  {
    if capacity > 0 && !op.Purge? {
      FindWithout(s, op.key, key);
      WithoutDistinct(s, op.key);
      FindKey(s, op.key);
      if op.Set? {
        var t := [Fresh(ttl, op.now, op.key, op.value)] + Without(s, op.key);
        assert t[1..] == Without(s, op.key);
        FindWithout(s, op.key, op.key);
        FindButLast(t, key);
      } else if op.Get? && Find(s, op.key).Some? {
        assert ([Find(s, op.key).value] + Without(s, op.key))[1..] == Without(s, op.key);
      }
    }
  }

  lemma {:induction false} RunHoldsLatestSet<K, V>(capacity: int, ttl: int, ops: seq<Op<K, V>>, key: K)
    ensures
      var found := Find(Run(capacity, ttl, ops), key);
      var latest := LatestSet(ops, key);
      found.Some? ==> latest.Some? && found.value == Fresh(ttl, latest.value.1, key, latest.value.0)
  {
    if ops != [] && Find(Run(capacity, ttl, ops), key).Some? {
      var init := ops[..|ops| - 1];
      RunWf(capacity, ttl, init);
      FindAfterStep(capacity, ttl, Run(capacity, ttl, init), ops[|ops| - 1], key);
      RunHoldsLatestSet(capacity, ttl, init, key);
    }
  }

  /** A hit returns the value of the key's latest Set, made at most ttl earlier. */
  lemma HitIsLatestSet<K, V>(capacity: int, ttl: int, ops: seq<Op<K, V>>, i: nat)
    requires i < |ops| && Outcome(capacity, ttl, ops, i).Some?
    ensures
      var latest := LatestSet(ops[..i], ops[i].key);
      && ops[i].Get? && latest.Some?
      && Outcome(capacity, ttl, ops, i).value == latest.value.0
      && (ttl > 0 ==> ops[i].now <= latest.value.1 + ttl)
  {
    RunHoldsLatestSet(capacity, ttl, ops[..i], ops[i].key);
  }

  // ---------- The least recently used entry goes first ----------

  lemma {:induction false} RunSplits<K, V>(capacity: int, ttl: int, a: seq<Op<K, V>>, b: seq<Op<K, V>>)
    ensures Run(capacity, ttl, a + b) == RunFrom(capacity, ttl, Run(capacity, ttl, a), b)
  {
    if b == [] {
      assert a + b == a;
    } else {
      assert (a + b)[..|a + b| - 1] == a + b[..|b| - 1];
      RunSplits(capacity, ttl, a, b[..|b| - 1]);
    }
  }

  // The last call uses its key, and no call after it names the key or purges.
  ghost predicate LastUse<K, V>(
    capacity: int, ttl: int, before: seq<Op<K, V>>, op: Op<K, V>, after: seq<Op<K, V>>)
  {
    && Uses(capacity, ttl, Run(capacity, ttl, before), op)
    && forall i | 0 <= i < |after| :: !after[i].Purge? && after[i].key != op.key
  }

  lemma UseIsInFront<K, V>(capacity: int, ttl: int, before: seq<Op<K, V>>, op: Op<K, V>)
    requires capacity > 0 && Uses(capacity, ttl, Run(capacity, ttl, before), op)
    ensures
      var s := Run(capacity, ttl, before + [op]);
      && Wf(capacity, s) && s != [] && s[0].key == op.key
      && Find(s, op.key) == Some(s[0]) && Ahead(s, op.key) == {}
  {
    assert (before + [op])[..|before|] == before;
    RunWf(capacity, ttl, before);
    RunWf(capacity, ttl, before + [op]);
    CallPlacesItsKey(capacity, ttl, Run(capacity, ttl, before), op);
  }

  /**
   After a Set of a key or a Get of it that hits, a later Get of it hits with the value of its
   latest Set, until that is more than ttl ago, as long as no call in between named the key
   or purged and fewer than `capacity` distinct other keys were set or hit.
   */
  lemma RecentlyUsedKeyHits<K, V>(
    capacity: int, ttl: int, before: seq<Op<K, V>>, op: Op<K, V>, after: seq<Op<K, V>>, now: int)
    requires capacity > 0 && LastUse(capacity, ttl, before, op, after)
    requires |Touched(capacity, ttl, Run(capacity, ttl, before + [op]), after)| < capacity
    ensures LatestSet(before + [op], op.key).Some?
    ensures
      var (value, at) := LatestSet(before + [op], op.key).value;
      Step(capacity, ttl, Run(capacity, ttl, before + [op] + after), Get(now, op.key)).1 ==
      if ttl > 0 && now > at + ttl then None else Some(value)
  {
    UseIsInFront(capacity, ttl, before, op);
    RunHoldsLatestSet(capacity, ttl, before + [op], op.key);
    RunRetains(capacity, ttl, Run(capacity, ttl, before + [op]), after, op.key);
    RunSplits(capacity, ttl, before + [op], after);
  }

  // While the key is in the list the used keys are those ahead of it; once it is gone they fill the cache.
  ghost predicate Displaced<K, V>(capacity: int, s: seq<Entry<K, V>>, key: K, used: set<K>) {
    if Find(s, key).Some? then Ahead(s, key) == used else |used| >= capacity
  }

  lemma DropLastDisplaces<K, V>(capacity: int, s: seq<Entry<K, V>>, key: K)
    requires Distinct(s) && |s| == capacity + 1 && Find(s, key).Some?
    ensures Displaced(capacity, s[..capacity], key, Ahead(s, key))
  {
    FindButLast(s, key);
    if s[|s| - 1].key == key {
      AheadOfLast(s, key);
    } else {
      AheadButLast(s, key);
    }
  }

  lemma SetDisplaces<K, V>(capacity: int, ttl: int, s: seq<Entry<K, V>>, op: Op<K, V>, key: K)
    requires capacity > 0 && Wf(capacity, s) && Find(s, key).Some? && op.Set? && op.key != key
    ensures Displaced(capacity, Step(capacity, ttl, s, op).0, key, Ahead(s, key) + {op.key})
  {
    var u := Pushed(ttl, s, op);
    SetPushes(capacity, ttl, s, op);
    assert Find(u, key).Some? && Ahead(u, key) == Ahead(s, key) + {op.key} by {
      FindWithout(s, op.key, key);
      AheadWithout(s, key, op.key);
    }
    if |u| > capacity {
      DropLastDisplaces(capacity, u, key);
    }
  }

  lemma StepDisplaces<K, V>(capacity: int, ttl: int, s: seq<Entry<K, V>>, op: Op<K, V>, key: K, used: set<K>)
    requires capacity > 0 && Wf(capacity, s) && Displaced(capacity, s, key, used)
    requires (op.Get? || op.Set?) && op.key != key
    requires Find(s, op.key).Some? ==> Find(s, op.key).value.expiresAt.None?
    ensures Displaced(capacity, Step(capacity, ttl, s, op).0, key, used + Touches(capacity, ttl, s, op))
  {
    if Find(s, key).None? {
      CardinalityOf(used, used + Touches(capacity, ttl, s, op));
      if Find(Step(capacity, ttl, s, op).0, key).Some? {
        FindAfterStep(capacity, ttl, s, op, key);
      }
    } else if op.Set? {
      SetDisplaces(capacity, ttl, s, op, key);
    } else if Find(s, op.key).Some? {
      FindWithout(s, op.key, key);
      AheadWithout(s, key, op.key);
      FindKey(s, op.key);
      assert ([Find(s, op.key).value] + Without(s, op.key))[1..] == Without(s, op.key);
    }
  }

  lemma {:induction false} RunDisplaces<K, V>(
    capacity: int, ttl: int, head: seq<Op<K, V>>, after: seq<Op<K, V>>, key: K)
    requires capacity > 0 && ttl <= 0
    requires Find(Run(capacity, ttl, head), key).Some? && Ahead(Run(capacity, ttl, head), key) == {}
    requires forall i | 0 <= i < |after| :: (after[i].Get? || after[i].Set?) && after[i].key != key
    ensures
      var used := Touched(capacity, ttl, Run(capacity, ttl, head), after);
      Displaced(capacity, Run(capacity, ttl, head + after), key, used)
  {
    if after == [] {
      assert head + after == head;
    } else {
      var init, op := after[..|after| - 1], after[|after| - 1];
      var s := Run(capacity, ttl, head + init);
      assert (head + after)[..|head + after| - 1] == head + init;
      RunDisplaces(capacity, ttl, head, init, key);
      RunWf(capacity, ttl, head + init);
      RunHoldsLatestSet(capacity, ttl, head + init, op.key);
      RunSplits(capacity, ttl, head, init);
      StepDisplaces(capacity, ttl, s, op, key, Touched(capacity, ttl, Run(capacity, ttl, head), init));
    }
  }

  /**
   Without expiry and deletions the bound is exact: after a use of a key, a later Get of it
   hits if and only if fewer than `capacity` distinct other keys were set or hit since.
   */
  lemma HitsIffFewUsed<K, V>(
    capacity: int, ttl: int, before: seq<Op<K, V>>, op: Op<K, V>, after: seq<Op<K, V>>, now: int)
    requires capacity > 0 && ttl <= 0 && LastUse(capacity, ttl, before, op, after)
    requires forall i | 0 <= i < |after| :: !after[i].Delete?
    ensures
      Step(capacity, ttl, Run(capacity, ttl, before + [op] + after), Get(now, op.key)).1.Some?
      <==> |Touched(capacity, ttl, Run(capacity, ttl, before + [op]), after)| < capacity
  {
    UseIsInFront(capacity, ttl, before, op);
    RunDisplaces(capacity, ttl, before + [op], after, op.key);
    var used := Touched(capacity, ttl, Run(capacity, ttl, before + [op]), after);
    if |used| < capacity {
      RecentlyUsedKeyHits(capacity, ttl, before, op, after, now);
    } else {
      if Find(Run(capacity, ttl, before + [op] + after), op.key).Some? {
        PresentHasRoom(capacity, ttl, before + [op] + after, op.key);
      }
    }
  }

  // A key in the list has fewer than `capacity` keys ahead of it.
  lemma PresentHasRoom<K, V>(capacity: int, ttl: int, ops: seq<Op<K, V>>, key: K)
    requires capacity > 0 && Find(Run(capacity, ttl, ops), key).Some?
    ensures |Ahead(Run(capacity, ttl, ops), key)| < capacity
  {
    RunWf(capacity, ttl, ops);
    AheadIsShort(Run(capacity, ttl, ops), key);
  }

  lemma {:induction false} AheadIsShort<K, V>(s: seq<Entry<K, V>>, key: K)
    requires Find(s, key).Some?
    ensures |Ahead(s, key)| < |s|
  {
    if s[0].key != key {
      AheadIsShort(s[1..], key);
    }
  }

  // ---------- Agreement with a map whose entries expire ----------

  /** What a map with expiring entries and no capacity would return. */
  ghost function MapGet<K, V>(ttl: int, ops: seq<Op<K, V>>, now: int, key: K): Option<V> {
    match LatestSet(ops, key)
    case None => None
    case Some((v, at)) => if ttl > 0 && now > at + ttl then None else Some(v)
  }

  ghost function SetKeys<K, V>(ops: seq<Op<K, V>>): set<K> {
    if ops == [] then {}
    else SetKeys(ops[..|ops| - 1]) + if ops[|ops| - 1].Set? then {ops[|ops| - 1].key} else {}
  }

  // The clock of a run never goes back, and has reached at most `now`.
  ghost predicate ClockUpTo<K, V>(ops: seq<Op<K, V>>, now: int) {
    forall i | 0 <= i < |ops| && (ops[i].Get? || ops[i].Set?) ::
      && ops[i].now <= now
      && forall j | i <= j < |ops| && (ops[j].Get? || ops[j].Set?) :: ops[i].now <= ops[j].now
  }

  ghost function KeySet<K, V>(s: seq<Entry<K, V>>): set<K> {
    if s == [] then {} else {s[0].key} + KeySet(s[1..])
  }

  lemma {:induction false} KeySetFacts<K, V>(s: seq<Entry<K, V>>, key: K)
    requires Distinct(s)
    ensures |KeySet(s)| == |s| && (key in KeySet(s) <==> Find(s, key).Some?)
  {
    if s != [] {
      KeySetFacts(s[1..], key);
      KeySetFacts(s[1..], s[0].key);
    }
  }

  // With room for every key ever set, a missing key is one that is unset or out of date.
  ghost predicate Complete<K(!new), V>(capacity: int, ttl: int, ops: seq<Op<K, V>>, s: seq<Entry<K, V>>, now: int) {
    && (forall key :: Find(s, key).Some? ==> key in SetKeys(ops))
    && (forall key :: Find(s, key).None? ==> MapGet(ttl, ops, now, key).None?)
  }

  lemma NoEviction<K(!new), V>(
    capacity: int, ttl: int, init: seq<Op<K, V>>, s: seq<Entry<K, V>>, op: Op<K, V>)
    requires op.Set? && capacity > 0 && Wf(capacity, s)
    requires forall key :: Find(s, key).Some? ==> key in SetKeys(init)
    requires |SetKeys(init) + {op.key}| <= capacity
    ensures Step(capacity, ttl, s, op).0 == [Fresh(ttl, op.now, op.key, op.value)] + Without(s, op.key)
  {
    WithoutDistinct(s, op.key);
    if Find(s, op.key).None? {
      KeySetFacts(s, op.key);
      forall k | k in KeySet(s)
        ensures k in SetKeys(init)
      {
        KeySetFacts(s, k);
      }
      CardinalityOf(KeySet(s) + {op.key}, SetKeys(init) + {op.key});
    }
  }

  lemma StepComplete<K(!new), V>(
    capacity: int, ttl: int, init: seq<Op<K, V>>, op: Op<K, V>, s: seq<Entry<K, V>>, before: int, now: int)
    requires capacity > 0 && Wf(capacity, s) && Complete(capacity, ttl, init, s, before)
    requires forall key | Find(s, key).Some? ::
               LatestSet(init, key).Some? &&
               Find(s, key).value == Fresh(ttl, LatestSet(init, key).value.1, key, LatestSet(init, key).value.0)
    requires before <= now
    requires op.Get? || op.Set? ==> before <= op.now <= now
    requires |SetKeys(init + [op])| <= capacity
    ensures Complete(capacity, ttl, init + [op], Step(capacity, ttl, s, op).0, now)
  {
    var ops := init + [op];
    var s' := Step(capacity, ttl, s, op).0;
    assert ops[..|ops| - 1] == init;
    if op.Set? {
      NoEviction(capacity, ttl, init, s, op);
    }
    forall key
      ensures Find(s', key).Some? ==> key in SetKeys(ops)
      ensures Find(s', key).None? ==> MapGet(ttl, ops, now, key).None?
    {
      if Find(s', key).Some? {
        FindAfterStep(capacity, ttl, s, op, key);
      } else if !op.Purge? {
        FindWithout(s, op.key, key);
        if op.Set? {
          assert s'[1..] == Without(s, op.key);
        } else if op.Get? && Find(s, op.key).Some? {
          FindKey(s, op.key);
          assert ([Find(s, op.key).value] + Without(s, op.key))[1..] == Without(s, op.key);
        }
      }
    }
  }

  lemma {:induction false} RunComplete<K(!new), V>(capacity: int, ttl: int, ops: seq<Op<K, V>>, now: int)
    requires capacity > 0 && ClockUpTo(ops, now)
    requires |SetKeys(ops)| <= capacity
    ensures Complete(capacity, ttl, ops, Run(capacity, ttl, ops), now)
  {
    if ops != [] {
      var init, op := ops[..|ops| - 1], ops[|ops| - 1];
      var before := if op.Get? || op.Set? then op.now else now;
      assert forall i | 0 <= i < |init| :: init[i] == ops[i];
      CardinalityOf(SetKeys(init), SetKeys(ops));
      RunComplete(capacity, ttl, init, before);
      RunWf(capacity, ttl, init);
      forall key | Find(Run(capacity, ttl, init), key).Some?
        ensures LatestSet(init, key).Some?
        ensures Find(Run(capacity, ttl, init), key).value ==
                Fresh(ttl, LatestSet(init, key).value.1, key, LatestSet(init, key).value.0)
      {
        RunHoldsLatestSet(capacity, ttl, init, key);
      }
      assert init + [op] == ops;
      StepComplete(capacity, ttl, init, op, Run(capacity, ttl, init), before, now);
    }
  }

  /**
   A cache with room for every key that is ever set answers every Get exactly as a
   map with expiring entries, provided the clock does not go back.
   */
  lemma AgreesWithExpiringMap<K(!new), V>(capacity: int, ttl: int, ops: seq<Op<K, V>>, now: int, key: K)
    requires capacity > 0 && ClockUpTo(ops, now)
    requires |SetKeys(ops)| <= capacity
    ensures Step(capacity, ttl, Run(capacity, ttl, ops), Get(now, key)).1 == MapGet(ttl, ops, now, key)
  {
    RunComplete(capacity, ttl, ops, now);
    RunHoldsLatestSet(capacity, ttl, ops, key);
  }
}
