/**
 The counters of ratelimit/ in Redis: the three scripts, and the calls of the limiter
 made of them.  Times are in seconds.
 */
module RateLimitScripts {
  import opened Wrappers
  import opened Redis
  import Decimal
  import Text

  const KEY_TTL := 120
  const NANOS_PER_SECOND := 1_000_000_000

  // ---------- Keys ----------

  datatype Identity = Identity(userId: int, tenantId: int, apiKeyId: int)

  function KeyPrefix(id: Identity): string {
    if id.apiKeyId > 0 then "apikey:" + Decimal.PrintInt(id.apiKeyId)
    else if id.tenantId > 0 then "tenant:" + Decimal.PrintInt(id.tenantId)
    else "user:" + Decimal.PrintInt(id.userId)
  }

  datatype Key = Rpm(prefix: string, minute: int) | Tpm(prefix: string, minute: int) | Conc(prefix: string)

  function Render(k: Key): string {
    match k
    case Rpm(p, m) => "rl:rpm:" + p + ":" + Decimal.PrintInt(m)
    case Tpm(p, m) => "rl:tpm:" + p + ":" + Decimal.PrintInt(m)
    case Conc(p) => "rl:conc:" + p
  }

  // The identity a prefix stands for: the first positive id, or the user.
  datatype Owner = ApiKey(id: int) | Tenant(id: int) | User(id: int)

  function OwnerOf(id: Identity): Owner {
    if id.apiKeyId > 0 then ApiKey(id.apiKeyId) else if id.tenantId > 0 then Tenant(id.tenantId) else User(id.userId)
  }

  function OwnerWord(o: Owner): string {
    match o
    case ApiKey(_) => "apikey"
    case Tenant(_) => "tenant"
    case User(_) => "user"
  }

  lemma PrefixParts(id: Identity)
    ensures KeyPrefix(id) == OwnerWord(OwnerOf(id)) + ":" + Decimal.PrintInt(OwnerOf(id).id)
    ensures Text.Split(KeyPrefix(id), ':') == [OwnerWord(OwnerOf(id)), Decimal.PrintInt(OwnerOf(id).id)]
  {
    var o := OwnerOf(id);
    Decimal.PrintIntAvoids(o.id, ':');
    Text.SplitAtFirst(OwnerWord(o), Decimal.PrintInt(o.id), ':');
    Text.SplitWithout(Decimal.PrintInt(o.id), ':');
  }

  // The colon-separated words of a rendered key.
  function Words(k: Key): seq<string> {
    match k
    case Rpm(p, m) => ["rl", "rpm"] + Text.Split(p, ':') + [Decimal.PrintInt(m)]
    case Tpm(p, m) => ["rl", "tpm"] + Text.Split(p, ':') + [Decimal.PrintInt(m)]
    case Conc(p) => ["rl", "conc"] + Text.Split(p, ':')
  }

  lemma TaggedWords(kind: string, rest: string)
    requires ':' !in kind
    ensures Text.Split("rl:" + kind + ":" + rest, ':') == ["rl", kind] + Text.Split(rest, ':')
  {
    var tail := kind + ":" + rest;
    assert "rl:" + kind + ":" + rest == "rl" + ":" + tail;
    Text.SplitAtFirst("rl", tail, ':');
    Text.SplitAtFirst(kind, rest, ':');
  }

  lemma MinuteWords(kind: string, prefix: string, minute: int)
    requires ':' !in kind
    ensures Text.Split("rl:" + kind + ":" + (prefix + ":" + Decimal.PrintInt(minute)), ':')
            == ["rl", kind] + Text.Split(prefix, ':') + [Decimal.PrintInt(minute)]
  {
    TaggedWords(kind, prefix + ":" + Decimal.PrintInt(minute));
    Text.SplitConcat(prefix, Decimal.PrintInt(minute), ':');
    Decimal.PrintIntAvoids(minute, ':');
    Text.SplitWithout(Decimal.PrintInt(minute), ':');
  }

  lemma RenderedMinute(k: Key)
    requires !k.Conc?
    ensures Render(k) == "rl:" + (if k.Rpm? then "rpm" else "tpm") + ":" + (k.prefix + ":" + Decimal.PrintInt(k.minute))
  {
  }

  lemma RenderedWords(k: Key)
    ensures Text.Split(Render(k), ':') == Words(k)
  {
    if k.Conc? {
      assert Render(k) == "rl:" + "conc" + ":" + k.prefix;
      TaggedWords("conc", k.prefix);
    } else {
      RenderedMinute(k);
      MinuteWords(if k.Rpm? then "rpm" else "tpm", k.prefix, k.minute);
    }
  }

  /** Different keys have different names in Redis. */
  lemma RenderInjective(j: Key, k: Key)
    ensures Render(j) == Render(k) <==> j == k
  {
    if Render(j) == Render(k) {
      RenderedWords(j);
      RenderedWords(k);
      var a, b := Words(j), Words(k);
      assert a == b && a[1] == b[1];
      if j.Conc? {
        assert Text.Split(j.prefix, ':') == a[2..] == Text.Split(k.prefix, ':');
      } else {
        assert Text.Split(j.prefix, ':') == a[2..|a| - 1] == Text.Split(k.prefix, ':');
        assert Decimal.PrintInt(j.minute) == a[|a| - 1] == Decimal.PrintInt(k.minute);
        Decimal.PrintIntInjective(j.minute, k.minute);
      }
      Text.SplitInjective(j.prefix, k.prefix, ':');
    }
  }

  /** Two identities share counters exactly for one API key, without API keys for one tenant, and else for one user. */
  lemma PrefixIdentifiesOwner(a: Identity, b: Identity)
    ensures KeyPrefix(a) == KeyPrefix(b) <==>
            if a.apiKeyId > 0 || b.apiKeyId > 0 then a.apiKeyId == b.apiKeyId
            else if a.tenantId > 0 || b.tenantId > 0 then a.tenantId == b.tenantId
            else a.userId == b.userId
  {
    PrefixParts(a);
    PrefixParts(b);
    if KeyPrefix(a) == KeyPrefix(b) {
      var words := Text.Split(KeyPrefix(a), ':');
      assert OwnerWord(OwnerOf(a)) == words[0] == OwnerWord(OwnerOf(b));
      assert Decimal.PrintInt(OwnerOf(a).id) == words[1] == Decimal.PrintInt(OwnerOf(b).id);
      Decimal.PrintIntInjective(OwnerOf(a).id, OwnerOf(b).id);
    }
  }

  // ---------- The check-and-increment script ----------

  datatype Bound<K> = Bound(key: K, limit: int, increment: int, ttl: int)

  type Counters<K> = Keyspace<K, int>

  predicate Fits<K>(db: Counters<K>, b: Bound<K>, now: int) {
    Count(db, b.key, now) + b.increment <= b.limit
  }

  function Increment<K>(db: Counters<K>, b: Bound<K>, now: int): Counters<K> {
    Expire(IncrBy(db, b.key, b.increment, now), b.key, b.ttl, now)
  }

  function IncrementAll<K>(db: Counters<K>, bounds: seq<Bound<K>>, now: int): Counters<K> {
    if bounds == [] then db
    else Increment(IncrementAll(db, bounds[..|bounds| - 1], now), bounds[|bounds| - 1], now)
  }

  predicate AllFit<K>(db: Counters<K>, bounds: seq<Bound<K>>, now: int) {
    forall i | 0 <= i < |bounds| :: Fits(db, bounds[i], now)
  }

  ghost predicate DistinctKeys<K>(bounds: seq<Bound<K>>) {
    forall i, j | 0 <= i < j < |bounds| :: bounds[i].key != bounds[j].key
  }

  // Distinct keys with positive times to live, as the limiter passes them.
  ghost predicate Regular<K>(bounds: seq<Bound<K>>) {
    DistinctKeys(bounds) && forall i | 0 <= i < |bounds| :: bounds[i].ttl > 0
  }

  // What the limits leave after the increments.
  ghost predicate Leaves<K>(db: Counters<K>, bounds: seq<Bound<K>>, now: int, remaining: seq<int>) {
    && |remaining| <= |bounds|
    && forall i | 0 <= i < |remaining| ::
         remaining[i] == bounds[i].limit - Count(db, bounds[i].key, now) - bounds[i].increment
  }

  // What the script adds to one counter.
  function AddedTo<K(==)>(bounds: seq<Bound<K>>, key: K): int {
    if bounds == [] then 0
    else
      var last := bounds[|bounds| - 1];
      AddedTo(bounds[..|bounds| - 1], key) + if last.key == key then last.increment else 0
  }

  /** The script adds each increment to its counter, and touches no other key. */
  lemma {:induction false} IncrementAllCounts<K>(db: Counters<K>, bounds: seq<Bound<K>>, now: int, key: K)
    requires forall i | 0 <= i < |bounds| :: bounds[i].ttl > 0
    ensures Count(IncrementAll(db, bounds, now), key, now) == Count(db, key, now) + AddedTo(bounds, key)
    ensures (forall i | 0 <= i < |bounds| :: bounds[i].key != key) ==>
              && (key in db <==> key in IncrementAll(db, bounds, now))
              && (key in db ==> IncrementAll(db, bounds, now)[key] == db[key])
  {
    if bounds != [] {
      IncrementAllCounts(db, bounds[..|bounds| - 1], now, key);
    }
  }

  lemma {:induction false} AddedToDistinct<K>(bounds: seq<Bound<K>>, i: nat)
    requires DistinctKeys(bounds) && i < |bounds|
    ensures AddedTo(bounds, bounds[i].key) == bounds[i].increment
  {
    var init := bounds[..|bounds| - 1];
    if i < |init| {
      AddedToDistinct(init, i);
    } else {
      AddedToOthers(init, bounds[i].key);
    }
  }

  lemma {:induction false} AddedToOthers<K>(bounds: seq<Bound<K>>, key: K)
    requires forall i | 0 <= i < |bounds| :: bounds[i].key != key
    ensures AddedTo(bounds, key) == 0
  {
    if bounds != [] {
      AddedToOthers(bounds[..|bounds| - 1], key);
    }
  }

  /** On distinct keys an admitted call leaves every counter within its limit. */
  lemma DistinctKeysStayWithin<K>(db: Counters<K>, bounds: seq<Bound<K>>, now: int, i: nat)
    requires DistinctKeys(bounds) && i < |bounds| && AllFit(db, bounds, now)
    requires forall j | 0 <= j < |bounds| :: bounds[j].ttl > 0
    ensures Count(IncrementAll(db, bounds, now), bounds[i].key, now) ==
            Count(db, bounds[i].key, now) + bounds[i].increment
    ensures Count(IncrementAll(db, bounds, now), bounds[i].key, now) <= bounds[i].limit
  {
    IncrementAllCounts(db, bounds, now, bounds[i].key);
    AddedToDistinct(bounds, i);
    assert Fits(db, bounds[i], now);
  }

  lemma UntouchedSoFar<K>(db: Counters<K>, bounds: seq<Bound<K>>, now: int, i: nat)
    requires i < |bounds|
    ensures Regular(bounds) ==>
              Count(IncrementAll(db, bounds[..i], now), bounds[i].key, now) == Count(db, bounds[i].key, now)
  {
    if Regular(bounds) {
      IncrementAllCounts(db, bounds[..i], now, bounds[i].key);
      AddedToOthers(bounds[..i], bounds[i].key);
    }
  }

  /** The same key given twice can be pushed over its limit. */
  lemma RepeatedKeyOvershoots()
    ensures
      var bounds := [Bound(0, 1, 1, KEY_TTL), Bound(0, 1, 1, KEY_TTL)];
      AllFit(map[], bounds, 0) && Count(IncrementAll(map[], bounds, 0), 0, 0) > bounds[0].limit
  {
    var bounds := [Bound(0, 1, 1, KEY_TTL), Bound(0, 1, 1, KEY_TTL)];
    IncrementAllCounts(map[], bounds, 0, 0);
    assert bounds[..1] == [Bound(0, 1, 1, KEY_TTL)] && bounds[..1][..0] == [];
    assert AddedTo(bounds[..1], 0) == 1;
  }

  // ---------- The slot scripts ----------

  function AcquireSlot<K>(db: Counters<K>, key: K, limit: int, now: int): (Counters<K>, bool) {
    if Count(db, key, now) >= limit then (db, false)
    else (Increment(db, Bound(key, limit, 1, KEY_TTL), now), true)
  }

  function ReleaseSlot<K>(db: Counters<K>, key: K, now: int): Counters<K> {
    if Count(db, key, now) > 0 then IncrBy(db, key, -1, now) else db
  }

  // ---------- The limiter ----------

  datatype Limits = Limits(rpm: int, tpm: int, concurrency: int)

  datatype CheckResult = CheckResult(
    allowed: bool, denyReason: string, concurrencyAcquired: bool,
    remainingRequests: int, remainingTokens: int, resetAt: Option<int>, retryAfterSeconds: int, minute: int)

  function Bounds(prefix: string, minute: int, limits: Limits, tokens: int): seq<Bound<Key>> {
    [Bound(Rpm(prefix, minute), limits.rpm, 1, KEY_TTL), Bound(Tpm(prefix, minute), limits.tpm, tokens, KEY_TTL)]
  }

  // The request and its tokens are within both limits of the minute.
  predicate RoomForBoth(db: Counters<Key>, p: string, minute: int, limits: Limits, tokens: int, now: int) {
    && Count(db, Rpm(p, minute), now) + 1 <= limits.rpm
    && Count(db, Tpm(p, minute), now) + tokens <= limits.tpm
  }

  lemma BoundsFit(db: Counters<Key>, p: string, minute: int, limits: Limits, tokens: int, now: int)
    ensures AllFit(db, Bounds(p, minute, limits, tokens), now) <==> RoomForBoth(db, p, minute, limits, tokens, now)
  {
    var bounds := Bounds(p, minute, limits, tokens);
    if AllFit(db, bounds, now) {
      assert Fits(db, bounds[0], now) && Fits(db, bounds[1], now);
    }
  }

  lemma BoundsAdd(prefix: string, minute: int, limits: Limits, tokens: int, key: Key)
    ensures AddedTo(Bounds(prefix, minute, limits, tokens), key) ==
            if key == Rpm(prefix, minute) then 1 else if key == Tpm(prefix, minute) then tokens else 0
  {
    var bounds := Bounds(prefix, minute, limits, tokens);
    assert bounds[..1] == [bounds[0]] && bounds[..1][..0] == [];
    assert AddedTo(bounds[..1], key) == if key == Rpm(prefix, minute) then 1 else 0;
  }

  lemma ReservedCounts(db: Counters<Key>, prefix: string, minute: int, limits: Limits, tokens: int, now: int)
    ensures forall k ::
              Count(IncrementAll(db, Bounds(prefix, minute, limits, tokens), now), k, now) ==
              Count(db, k, now) + if k == Rpm(prefix, minute) then 1 else if k == Tpm(prefix, minute) then tokens else 0
  {
    forall k
      ensures Count(IncrementAll(db, Bounds(prefix, minute, limits, tokens), now), k, now) ==
              Count(db, k, now) + if k == Rpm(prefix, minute) then 1 else if k == Tpm(prefix, minute) then tokens else 0
    {
      IncrementAllCounts(db, Bounds(prefix, minute, limits, tokens), now, k);
      BoundsAdd(prefix, minute, limits, tokens, k);
    }
  }

  // Other clients may have replaced the counters in the meantime.
  function Meanwhile(db: Counters<Key>, others: Option<Counters<Key>>): Counters<Key> {
    if others.Some? then others.value else db
  }

  /**
   A slot is taken, or else the reservation is taken back, the request at time `later` and,
   after what other clients did in between, its tokens at time `last`; no other counter changes.
   */
  ghost predicate SlotEffect(
    db: Counters<Key>, db': Counters<Key>, p: string, minute: int, tokens: int,
    later: int, between: Option<Counters<Key>>, last: int, slot: bool)
  {
    if slot then
      forall k :: Count(db', k, later) == Count(db, k, later) + if k == Conc(p) then 1 else 0
    else
      var half := Meanwhile(IncrBy(db, Rpm(p, minute), -1, later), between);
      forall k :: Count(db', k, last) == Count(half, k, last) - if k == Tpm(p, minute) then tokens else 0
  }

  // Seconds are rounded down to a minute towards zero.
  function MinuteOf(nanos: int): int {
    var seconds := nanos / NANOS_PER_SECOND;
    if seconds < 0 then -(-seconds / 60) else seconds / 60
  }

  /** The minute of a clock reading is the one it falls into, and before 1970 the next one, in whole seconds. */
  lemma MinuteContains(nanos: int)
    ensures nanos >= 0 ==> MinuteOf(nanos) * 60 * 1_000_000_000 <= nanos < (MinuteOf(nanos) + 1) * 60 * 1_000_000_000
    ensures nanos < 0 ==>
              (60 * (MinuteOf(nanos) - 1) + 1) * 1_000_000_000 <= nanos < (60 * MinuteOf(nanos) + 1) * 1_000_000_000
  {
  }

  // At time `until` the caller is told to come back after the minute, in whole seconds, at least one.
  ghost predicate RetryInMinute(r: CheckResult, until: int) {
    var reset := (r.minute + 1) * 60;
    && r.resetAt == Some(reset)
    && 1 <= r.retryAfterSeconds
    && (r.retryAfterSeconds > 1 ==> until + r.retryAfterSeconds * 1_000_000_000 <= reset * 1_000_000_000)
    && reset * 1_000_000_000 < until + (r.retryAfterSeconds + 1) * 1_000_000_000
  }

  /**
   Undisturbed, a refused slot leaves every count as it was, and an admission adds the
   request, its tokens and a slot.
   */
  lemma UndisturbedCheck(
    db: Counters<Key>, db': Counters<Key>, p: string, minute: int, limits: Limits, tokens: int, now: int, slot: bool)
    requires
      var booked := IncrementAll(db, Bounds(p, minute, limits, tokens), now);
      SlotEffect(booked, db', p, minute, tokens, now, None, now, slot)
    ensures forall k :: Count(db', k, now) == Count(db, k, now) +
              if !slot then 0
              else if k == Rpm(p, minute) || k == Conc(p) then 1
              else if k == Tpm(p, minute) then tokens else 0
  {
    ReservedCounts(db, p, minute, limits, tokens, now);
  }

  class Limiter {
    var db: Counters<Key>

    constructor ()
      ensures db == map[]
    {
      db := map[];
    }

    // Phase one reads and checks every counter; phase two increments them all if none was over.
    method CheckAndIncrement(bounds: seq<Bound<Key>>, now: int)
      returns (allowed: bool, denyIndex: int, remaining: seq<int>)
      modifies this
      ensures allowed == AllFit(old(db), bounds, now)
      ensures db == if allowed then IncrementAll(old(db), bounds, now) else old(db)
      ensures allowed ==> denyIndex == -1
      ensures !allowed ==>
                && 0 <= denyIndex < |bounds| && !Fits(db, bounds[denyIndex], now)
                && AllFit(db, bounds[..denyIndex], now)
      ensures |remaining| == |bounds|
      ensures allowed && Regular(bounds) ==> Leaves(old(db), bounds, now, remaining)
    {
      var n := |bounds|;
      allowed, denyIndex, remaining := true, -1, seq(n, _ => 0);
      var i := 0;
      while i < n && allowed
        invariant 0 <= i <= n && |remaining| == n
        invariant allowed ==> AllFit(db, bounds[..i], now) && denyIndex == -1
        invariant !allowed ==>
                    && 0 <= denyIndex < n && !Fits(db, bounds[denyIndex], now)
                    && AllFit(db, bounds[..denyIndex], now)
        decreases n - i, allowed
      {
        var current := Count(db, bounds[i].key, now);
        if current + bounds[i].increment > bounds[i].limit {
          allowed, denyIndex := false, i;
        } else {
          remaining := remaining[i := bounds[i].limit - current - bounds[i].increment];
          i := i + 1;
        }
      }
      if allowed {
        assert bounds[..n] == bounds;
        remaining := IncrementPhase(bounds, now);
      }
    }

    method IncrementPhase(bounds: seq<Bound<Key>>, now: int) returns (remaining: seq<int>)
      modifies this
      ensures db == IncrementAll(old(db), bounds, now)
      ensures |remaining| == |bounds|
      ensures Regular(bounds) ==> Leaves(old(db), bounds, now, remaining)
    {
      remaining := [];
      var i := 0;
      while i < |bounds|
        invariant 0 <= i <= |bounds| && |remaining| == i
        invariant db == IncrementAll(old(db), bounds[..i], now)
        invariant Regular(bounds) ==> Leaves(old(db), bounds, now, remaining)
      {
        assert bounds[..i + 1][..i] == bounds[..i];
        UntouchedSoFar(old(db), bounds, now, i);
        db := IncrBy(db, bounds[i].key, bounds[i].increment, now);
        remaining := remaining + [bounds[i].limit - Count(db, bounds[i].key, now)];
        db := Expire(db, bounds[i].key, bounds[i].ttl, now);
        i := i + 1;
      }
      assert bounds[..|bounds|] == bounds;
    }

    /**
     The pre-request check: reserve requests and tokens, take a slot, and undo the
     reservation when there is none.  The caller's clock reads `nanos` at the start and
     `until` when a wait is computed.  In Redis the reservation is made at `now`, the slot
     asked for at `later` and the reservation undone from then to `last`; `others` and
     `between` are what other clients have made of the counters before the slot is asked
     for and between the two decrements.
     */
    method CheckPreRequest(
      id: Identity, limits: Limits, tokens: int, nanos: int, until: int, now: int,
      others: Option<Counters<Key>>, later: int, between: Option<Counters<Key>>, last: int)
      returns (r: CheckResult)
      modifies this
      ensures r.minute == MinuteOf(nanos)
      ensures nanos >= 0 ==> r.minute * 60 * 1_000_000_000 <= nanos < (r.minute + 1) * 60 * 1_000_000_000
      ensures nanos < 0 ==>
                (60 * (r.minute - 1) + 1) * 1_000_000_000 <= nanos < (60 * r.minute + 1) * 1_000_000_000
      ensures r.allowed == r.concurrencyAcquired == (r.denyReason == "")
      ensures !RoomForBoth(old(db), KeyPrefix(id), r.minute, limits, tokens, now) ==>
                var full := Count(old(db), Rpm(KeyPrefix(id), r.minute), now) + 1 > limits.rpm;
                && db == old(db)
                && r.denyReason == (if full then "rpm" else "tpm")
                && r.remainingRequests == r.remainingTokens == 0
                && RetryInMinute(r, until) && (0 <= nanos <= until ==> r.retryAfterSeconds <= 60)
      ensures RoomForBoth(old(db), KeyPrefix(id), r.minute, limits, tokens, now) ==>
                var p := KeyPrefix(id);
                var mid := Meanwhile(IncrementAll(old(db), Bounds(p, r.minute, limits, tokens), now), others);
                && r.remainingRequests == limits.rpm - Count(old(db), Rpm(p, r.minute), now) - 1
                && r.remainingTokens == limits.tpm - Count(old(db), Tpm(p, r.minute), now) - tokens
                && r.denyReason == (if Count(mid, Conc(p), later) >= limits.concurrency then "concurrency" else "")
                && r.resetAt == (if r.allowed then Some((r.minute + 1) * 60) else None)
                && r.retryAfterSeconds == (if r.allowed then 0 else 1)
                && SlotEffect(mid, db, p, r.minute, tokens, later, between, last, r.allowed)
    {
      var minute := MinuteOf(nanos);
      MinuteContains(nanos);
      var p := KeyPrefix(id);
      var bounds := Bounds(p, minute, limits, tokens);
      ghost var before := db;
      BoundsFit(db, p, minute, limits, tokens, now);
      var ok, denyIndex, remaining := CheckAndIncrement(bounds, now);
      assert Regular(bounds);
      if !ok {
        var reason := "rpm";
        if denyIndex == 1 {
          reason := "tpm";
          assert Fits(before, bounds[..1][0], now);
        }
        var resetAt := (minute + 1) * 60;
        var retry := (resetAt * NANOS_PER_SECOND - until) / NANOS_PER_SECOND;
        if retry < 1 {
          retry := 1;
        }
        return CheckResult(false, reason, false, 0, 0, Some(resetAt), retry, minute);
      }
      if others.Some? {
        db := others.value;
      }
      var slot := SlotOrUndo(p, minute, limits, tokens, later, between, last);
      if !slot {
        return CheckResult(false, "concurrency", false, remaining[0], remaining[1], None, 1, minute);
      }
      return CheckResult(true, "", true, remaining[0], remaining[1], Some((minute + 1) * 60), 0, minute);
    }

    method SlotOrUndo(
      p: string, minute: int, limits: Limits, tokens: int, later: int, between: Option<Counters<Key>>, last: int)
      returns (slot: bool)
      modifies this
      ensures slot == (Count(old(db), Conc(p), later) < limits.concurrency)
      ensures SlotEffect(old(db), db, p, minute, tokens, later, between, last, slot)
    {
      slot := TakeSlot(Conc(p), limits.concurrency, later);
      if !slot {
        db := IncrBy(db, Rpm(p, minute), -1, later);
        if between.Some? {
          db := between.value;
        }
        db := IncrBy(db, Tpm(p, minute), -tokens, last);
      }
    }

    method TakeSlot(key: Key, limit: int, now: int) returns (ok: bool)
      modifies this
      ensures (db, ok) == AcquireSlot(old(db), key, limit, now)
      ensures forall k :: Count(db, k, now) == Count(old(db), k, now) + if ok && k == key then 1 else 0
    {
      var current := Count(db, key, now);
      if current >= limit {
        return false;
      }
      db := IncrBy(db, key, 1, now);
      db := Expire(db, key, KEY_TTL, now);
      return true;
    }

    method ReleaseConcurrency(id: Identity, now: int)
      modifies this
      ensures db == ReleaseSlot(old(db), Conc(KeyPrefix(id)), now)
      ensures forall k :: Count(db, k, now) == Count(old(db), k, now)
                          - if k == Conc(KeyPrefix(id)) && Count(old(db), k, now) > 0 then 1 else 0
    {
      var key := Conc(KeyPrefix(id));
      var current := Count(db, key, now);
      if current > 0 {
        db := IncrBy(db, key, -1, now);
      }
    }

    // Gives the slot back if asked, and replaces the estimate by the actual token count.
    method TrackPostResponse(id: Identity, tokens: int, actual: int, minute: int, release: bool, now: int)
      modifies this
      ensures forall k :: Count(db, k, now) == Count(old(db), k, now)
                          + (if k == Tpm(KeyPrefix(id), minute) then actual - tokens else 0)
                          - (if release && k == Conc(KeyPrefix(id)) && Count(old(db), k, now) > 0 then 1 else 0)
    {
      if release {
        ReleaseConcurrency(id, now);
      }
      var delta := actual - tokens;
      if delta != 0 {
        db := IncrBy(db, Tpm(KeyPrefix(id), minute), delta, now);
      }
    }
  }
}
