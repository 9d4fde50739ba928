/**
 The two fixed-window limiters of runtimeguard/: one keeps a bucket per key in
 memory, the other keeps a counter with a deadline in Redis.  Times of the memory
 limiter and all durations are in nanoseconds; Redis works in milliseconds.
 */
module FixedWindow {
  import opened Wrappers
  import Text
  import Redis

  const MILLISECOND: int := 1_000_000

  datatype Decision = Decision(allowed: bool, remaining: int, retryAfter: int)

  datatype Bucket = Bucket(windowStart: int, count: int)

  // A call to Allow at a moment of the clock.
  datatype Call = Call(now: int, key: string, limit: int, window: int)

  function Key(c: Call): string {
    Text.TrimSpace(c.key)
  }

  predicate Valid(c: Call) {
    Key(c) != "" && c.limit > 0 && c.window > 0
  }

  function Refused(c: Call): Decision {
    Decision(false, 0, c.window)
  }

  /** Calls are counted together exactly when their keys differ in blank text at the ends only. */
  lemma KeysAgreeIff(c: Call, d: Call)
    ensures Key(c) == Key(d) <==> Text.SameUpToBlanks(c.key, d.key)
  {
    Text.TrimSame(c.key, d.key);
  }

  // ---------- In memory ----------

  // The bucket a call works on: the stored one, or a new one when its window has passed.
  function Current(b: Option<Bucket>, c: Call): Bucket {
    if b.None? || c.now - b.value.windowStart >= c.window then Bucket(c.now, 0) else b.value
  }

  function MemoryStep(b: Option<Bucket>, c: Call): (Bucket, Decision) {
    var cur := Current(b, c);
    if cur.count >= c.limit then
      (cur, Decision(false, 0, Max(cur.windowStart + c.window - c.now, 0)))
    else
      (cur.(count := cur.count + 1), Decision(true, c.limit - cur.count - 1, 0))
  }

  type Buckets = map<string, Bucket>

  function Lookup<T>(m: map<string, T>, key: string): Option<T> {
    if key in m then Some(m[key]) else None
  }

  function MemoryAllow(m: Buckets, c: Call): (Buckets, Decision) {
    if !Valid(c) then (m, Refused(c))
    else
      var (b, d) := MemoryStep(Lookup(m, Key(c)), c);
      (m[Key(c) := b], d)
  }

  class MemoryLimiter {
    var buckets: Buckets

    constructor ()
      ensures buckets == map[]
    {
      buckets := map[];
    }

    method Allow(c: Call) returns (d: Decision)
      modifies this
      ensures (buckets, d) == MemoryAllow(old(buckets), c)
    {
      var key := Text.TrimSpace(c.key);
      if key == "" || c.limit <= 0 || c.window <= 0 {
        return Decision(false, 0, c.window);
      }
      var b := Bucket(c.now, 0);
      if key in buckets && c.now - buckets[key].windowStart < c.window {
        b := buckets[key];
      }
      if b.count >= c.limit {
        var retry := b.windowStart + c.window - c.now;
        if retry < 0 {
          retry := 0;
        }
        buckets := buckets[key := b];
        return Decision(false, 0, retry);
      }
      b := b.(count := b.count + 1);
      buckets := buckets[key := b];
      return Decision(true, c.limit - b.count, 0);
    }
  }

  // ---------- In Redis ----------

  type Counters = Redis.Keyspace<string, int>

  function DurationMillis(d: int): int
    requires d > 0
  {
    if d / MILLISECOND <= 0 then 1 else d / MILLISECOND
  }

  function RedisKeyPrefix(raw: string): string {
    var prefix := Text.TrimSpace(raw);
    if prefix == "" then "runtimeguard:" else if Text.HasSuffix(prefix, ":") then prefix else prefix + ":"
  }

  // The script's reply: allowed flag, count and time to live.
  datatype Reply = Reply(allowed: bool, count: int, ttl: int)

  /** The effect of the script on the counter of one key, at a time and window in milliseconds. */
  function ScriptStep(cell: Option<Redis.Cell<int>>, now: int, window: int, limit: int)
    : (Option<Redis.Cell<int>>, Reply)
  {
    var live := cell.Some? && Redis.Live(cell.value, now);
    var current := if live then cell.value.value else 0;
    var fixed := live && cell.value.deadline.Some?;
    if current >= limit then
      if !live then (cell, Reply(false, current, window))
      else if fixed then (cell, Reply(false, current, cell.value.deadline.value - now))
      else (Some(cell.value.(deadline := Some(now + window))), Reply(false, current, window))
    else if fixed && current != 0 then
      (Some(cell.value.(value := current + 1)), Reply(true, current + 1, cell.value.deadline.value - now))
    else
      (Some(Redis.Cell(current + 1, Some(now + window))), Reply(true, current + 1, window))
  }

  /** Whatever it finds, the script leaves a live counter with a deadline: the one it had, or the window from now. */
  lemma ScriptLeavesDeadline(cell: Option<Redis.Cell<int>>, now: int, window: int, limit: int)
    requires window > 0
    ensures
      var left := ScriptStep(cell, now, window, limit).0;
      left.Some? && Redis.Live(left.value, now) ==>
        && left.value.deadline.Some?
        && (left.value.deadline.value == now + window || (cell.Some? && left.value.deadline == cell.value.deadline))
  {
  }

  function ToDecision(r: Reply, limit: int, window: int): Decision {
    var retry := Max(r.ttl * MILLISECOND, 0);
    if r.allowed then Decision(true, Max(limit - r.count, 0), 0)
    else Decision(false, 0, if retry == 0 then window else retry)
  }

  function RedisStep(cell: Option<Redis.Cell<int>>, now: int, c: Call): (Option<Redis.Cell<int>>, Decision)
    requires c.window > 0
  {
    var (cell', reply) := ScriptStep(cell, now, DurationMillis(c.window), c.limit);
    (cell', ToDecision(reply, c.limit, c.window))
  }

  function Put(db: Counters, key: string, cell: Option<Redis.Cell<int>>): Counters {
    match cell
    case Some(c) => db[key := c]
    case None => db - {key}
  }

  function RedisAllow(db: Counters, prefix: string, now: int, c: Call): (Counters, Decision) {
    if !Valid(c) then (db, Refused(c))
    else
      var key := prefix + "limiter:" + Key(c);
      var (cell, d) := RedisStep(Lookup(db, key), now, c);
      (Put(db, key, cell), d)
  }

  class RedisLimiter {
    var db: Counters
    const keyPrefix: string

    constructor (prefix: string)
      ensures db == map[] && keyPrefix == RedisKeyPrefix(prefix)
    {
      db, keyPrefix := map[], RedisKeyPrefix(prefix);
    }

    // The limiter script, command by command.
    method Script(key: string, now: int, window: int, limit: int) returns (r: Reply)
      requires window > 0
      modifies this
      ensures
        var (cell, reply) := ScriptStep(Lookup(old(db), key), now, window, limit);
        db == Put(old(db), key, cell) && r == reply
    {
      var current := Redis.Count(db, key, now);
      var ttl := Redis.Pttl(db, key, now);
      if current >= limit {
        if ttl < 0 {
          db := Redis.Expire(db, key, window, now);
          ttl := window;
        }
        return Reply(false, current, ttl);
      }
      db := Redis.IncrBy(db, key, 1, now);
      current := Redis.Count(db, key, now);
      if current == 1 || ttl < 0 {
        db := Redis.Expire(db, key, window, now);
        ttl := window;
      }
      return Reply(true, current, ttl);
    }

    method Allow(now: int, c: Call) returns (d: Decision)
      modifies this
      ensures (db, d) == RedisAllow(old(db), keyPrefix, now, c)
    {
      var key := Text.TrimSpace(c.key);
      if key == "" || c.limit <= 0 || c.window <= 0 {
        return Decision(false, 0, c.window);
      }
      var r := Script(keyPrefix + "limiter:" + key, now, DurationMillis(c.window), c.limit);
      var remaining, retryAfter := c.limit - r.count, r.ttl * MILLISECOND;
      if remaining < 0 {
        remaining := 0;
      }
      if retryAfter < 0 {
        retryAfter := 0;
      }
      if r.allowed {
        return Decision(true, remaining, 0);
      }
      if retryAfter == 0 {
        retryAfter := c.window;
      }
      return Decision(false, 0, retryAfter);
    }
  }

  // ---------- Calls that are not counted ----------

  /**
   A call with a blank key or a limit or window that is not positive is refused for the length
   of its window, and changes no bucket and no counter.
   */
  lemma InvalidIsRefused(m: Buckets, db: Counters, prefix: string, now: int, c: Call)
    requires Text.Blank(c.key) || c.limit <= 0 || c.window <= 0
    ensures MemoryAllow(m, c) == (m, Decision(false, 0, c.window))
    ensures RedisAllow(db, prefix, now, c) == (db, Decision(false, 0, c.window))
  {
    Text.TrimSpaceBlank(c.key);
  }

  /** The prefix of all keys ends in a colon; a blank one is the default, and only a missing colon is added. */
  lemma PrefixForm(raw: string)
    ensures
      var prefix, trimmed := RedisKeyPrefix(raw), Text.TrimSpace(raw);
      && prefix != "" && prefix[|prefix| - 1] == ':'
      && (Text.Blank(raw) ==> prefix == "runtimeguard:")
      && (!Text.Blank(raw) ==> prefix == trimmed || prefix == trimmed + ":")
  {
    Text.TrimSpaceBlank(raw);
    var trimmed := Text.TrimSpace(raw);
    if Text.HasSuffix(trimmed, ":") {
      assert trimmed[|trimmed| - 1..][0] == ':';
    }
  }

  // ---------- The two agree ----------

  function MemoryRun(calls: seq<Call>): Buckets {
    if calls == [] then map[] else MemoryAllow(MemoryRun(calls[..|calls| - 1]), calls[|calls| - 1]).0
  }

  function RedisRun(prefix: string, calls: seq<Call>): Counters {
    if calls == [] then map[]
    else
      var c := calls[|calls| - 1];
      RedisAllow(RedisRun(prefix, calls[..|calls| - 1]), prefix, c.now / MILLISECOND, c).0
  }

  // The i-th answer of a run.
  function MemoryDecision(calls: seq<Call>, i: nat): Decision
    requires i < |calls|
  {
    MemoryAllow(MemoryRun(calls[..i]), calls[i]).1
  }

  function RedisDecision(prefix: string, calls: seq<Call>, i: nat): Decision
    requires i < |calls|
  {
    RedisAllow(RedisRun(prefix, calls[..i]), prefix, calls[i].now / MILLISECOND, calls[i]).1
  }

  // Every call uses the whole-millisecond window of its key.
  ghost predicate WholeWindows(calls: seq<Call>, windows: string -> int) {
    forall i | 0 <= i < |calls| :: calls[i].window == windows(Key(calls[i])) * MILLISECOND
  }

  // The call as a clock of millisecond resolution sees it.
  function Floor(c: Call): Call {
    c.(now := c.now / MILLISECOND * MILLISECOND)
  }

  function Floors(calls: seq<Call>): (r: seq<Call>)
    ensures |r| == |calls|
  {
    if calls == [] then [] else Floors(calls[..|calls| - 1]) + [Floor(calls[|calls| - 1])]
  }

  lemma {:induction false} FloorsPrefix(calls: seq<Call>, i: nat)
    requires i <= |calls|
    ensures Floors(calls)[..i] == Floors(calls[..i])
    ensures i < |calls| ==> Floors(calls)[i] == Floor(calls[i])
  {
    if i == |calls| {
      assert calls[..i] == calls;
    } else if i < |calls| - 1 {
      FloorsPrefix(calls[..|calls| - 1], i);
      assert calls[..|calls| - 1][..i] == calls[..i];
    }
  }

  // Window start plus window is the deadline, and the counts agree.
  ghost predicate Matching(b: Option<Bucket>, cell: Option<Redis.Cell<int>>, window: int) {
    match (b, cell)
    case (None, None) => true
    case (Some(b), Some(cell)) =>
      && b.count == cell.value >= 1
      && cell.deadline.Some? && b.windowStart == (cell.deadline.value - window) * MILLISECOND
    case _ => false
  }

  ghost predicate Simulates(m: Buckets, db: Counters, prefix: string, windows: string -> int) {
    forall key: string {:trigger Lookup(m, key)} ::
      Matching(Lookup(m, key), Lookup(db, prefix + "limiter:" + key), windows(key))
  }

  lemma StepsAgree(b: Option<Bucket>, cell: Option<Redis.Cell<int>>, c: Call, window: int)
    requires Valid(c) && c.now % MILLISECOND == 0 && c.window == window * MILLISECOND
    requires Matching(b, cell, window)
    ensures RedisStep(cell, c.now / MILLISECOND, c).1 == MemoryStep(b, c).1
    ensures Matching(Some(MemoryStep(b, c).0), RedisStep(cell, c.now / MILLISECOND, c).0, window)
  {
    assert DurationMillis(c.window) == window;
    if b.Some? {
      var left := cell.value.deadline.value - c.now / MILLISECOND;
      assert b.value.windowStart + c.window - c.now == left * MILLISECOND;
      assert Redis.Live(cell.value, c.now / MILLISECOND) <==> c.now - b.value.windowStart < c.window;
    }
  }

  lemma KeysDiffer(prefix: string, a: string, b: string)
    requires prefix + "limiter:" + a == prefix + "limiter:" + b
    ensures a == b
  {
    var n := |prefix + "limiter:"|;
    assert a == (prefix + "limiter:" + a)[n..] && b == (prefix + "limiter:" + b)[n..];
  }

  lemma AllowsAgree(m: Buckets, db: Counters, prefix: string, windows: string -> int, c: Call)
    requires c.window == windows(Key(c)) * MILLISECOND
    requires Simulates(m, db, prefix, windows)
    ensures RedisAllow(db, prefix, c.now / MILLISECOND, c).1 == MemoryAllow(m, Floor(c)).1
    ensures Simulates(MemoryAllow(m, Floor(c)).0, RedisAllow(db, prefix, c.now / MILLISECOND, c).0, prefix, windows)
  {
    if Valid(c) {
      var full := prefix + "limiter:" + Key(c);
      StepsAgree(Lookup(m, Key(c)), Lookup(db, full), Floor(c), windows(Key(c)));
      var m', db' := MemoryAllow(m, Floor(c)).0, RedisAllow(db, prefix, c.now / MILLISECOND, c).0;
      forall key: string
        ensures Matching(Lookup(m', key), Lookup(db', prefix + "limiter:" + key), windows(key))
      {
        assert Matching(Lookup(m, key), Lookup(db, prefix + "limiter:" + key), windows(key));
        if prefix + "limiter:" + key == full {
          KeysDiffer(prefix, key, Key(c));
        }
      }
    }
  }

  lemma {:induction false} RunsSimulate(prefix: string, windows: string -> int, calls: seq<Call>)
    requires WholeWindows(calls, windows)
    ensures Simulates(MemoryRun(Floors(calls)), RedisRun(prefix, calls), prefix, windows)
  {
    if calls != [] {
      var init, c := calls[..|calls| - 1], calls[|calls| - 1];
      assert forall i | 0 <= i < |init| :: init[i] == calls[i];
      RunsSimulate(prefix, windows, init);
      AllowsAgree(MemoryRun(Floors(init)), RedisRun(prefix, init), prefix, windows, c);
      assert Floors(calls)[..|init|] == Floors(init);
    }
  }

  /**
   On every run with a fixed whole-millisecond window per key, the Redis limiter returns
   the decisions the memory limiter returns under a clock of millisecond resolution.
   */
  lemma LimitersAgree(prefix: string, windows: string -> int, calls: seq<Call>, i: nat)
    requires WholeWindows(calls, windows) && i < |calls|
    ensures RedisDecision(prefix, calls, i) == MemoryDecision(Floors(calls), i)
  {
    assert forall j | 0 <= j < i :: calls[..i][j] == calls[j];
    RunsSimulate(prefix, windows, calls[..i]);
    FloorsPrefix(calls, i);
    AllowsAgree(MemoryRun(Floors(calls[..i])), RedisRun(prefix, calls[..i]), prefix, windows, calls[i]);
  }

  lemma {:induction false} FloorsOfWhole(calls: seq<Call>)
    requires forall i | 0 <= i < |calls| :: calls[i].now % MILLISECOND == 0
    ensures Floors(calls) == calls
  {
    if calls != [] {
      FloorsOfWhole(calls[..|calls| - 1]);
    }
  }

  /** When the calls themselves come at whole milliseconds, the two limiters cannot be told apart. */
  lemma LimitersAgreeAtMillis(prefix: string, windows: string -> int, calls: seq<Call>, i: nat)
    requires WholeWindows(calls, windows) && i < |calls|
    requires forall j | 0 <= j < |calls| :: calls[j].now % MILLISECOND == 0
    ensures RedisDecision(prefix, calls, i) == MemoryDecision(calls, i)
  {
    FloorsOfWhole(calls);
    LimitersAgree(prefix, windows, calls, i);
  }

  // ---------- And differ otherwise ----------

  predicate IsKey(key: string) {
    Text.TrimSpace(key) == key != ""
  }

  // The second decision of two calls on one key.
  lemma SecondDecision(prefix: string, c: Call, d: Call)
    requires Valid(c) && Valid(d) && Key(c) == Key(d)
    ensures MemoryDecision([c, d], 1) == MemoryStep(Some(MemoryStep(None, c).0), d).1
    ensures RedisDecision(prefix, [c, d], 1) ==
            RedisStep(RedisStep(None, c.now / MILLISECOND, c).0, d.now / MILLISECOND, d).1
  {
    assert [c, d][..1] == [c] && [c][..0] == [];
    assert MemoryRun([c]) == map[Key(c) := MemoryStep(None, c).0];
    var full := prefix + "limiter:" + Key(c);
    assert Lookup(RedisRun(prefix, [c]), full) == RedisStep(None, c.now / MILLISECOND, c).0;
  }

  // A first call with a limit of one, and a second one on the same key.
  function Pair(key: string, t1: int, w1: int, t2: int, w2: int): seq<Call> {
    [Call(t1, key, 1, w1), Call(t2, key, 1, w2)]
  }

  /** Two different windows of a key, in whole milliseconds, give opposite verdicts when the shorter one is over. */
  lemma ChangingWindowDiffers(prefix: string, key: string, t: int, w1: int, w2: int)
    requires IsKey(key) && w1 > 0 && w2 > 0 && w1 != w2
    ensures
      var calls := Pair(key, t * MILLISECOND, w1 * MILLISECOND, (t + Min(w1, w2)) * MILLISECOND, w2 * MILLISECOND);
      RedisDecision(prefix, calls, 1).allowed == (w1 < w2) && MemoryDecision(calls, 1).allowed == (w2 < w1)
  {
    var c := Call(t * MILLISECOND, key, 1, w1 * MILLISECOND);
    var d := Call((t + Min(w1, w2)) * MILLISECOND, key, 1, w2 * MILLISECOND);
    SecondDecision(prefix, c, d);
    assert DurationMillis(c.window) == w1 && DurationMillis(d.window) == w2;
    assert RedisStep(None, t, c).0 == Some(Redis.Cell(1, Some(t + w1)));
  }

  /**
   A first call between two milliseconds makes Redis admit, and memory refuse, at the end of
   the window Redis sees.
   */
  lemma FractionsDiffer(prefix: string, key: string, window: int, a: int)
    requires IsKey(key) && window > 0 && a % MILLISECOND != 0
    ensures
      var calls := Pair(key, a, window * MILLISECOND, (a / MILLISECOND + window) * MILLISECOND, window * MILLISECOND);
      Monotone(calls) && RedisDecision(prefix, calls, 1).allowed && !MemoryDecision(calls, 1).allowed
  {
    var c := Call(a, key, 1, window * MILLISECOND);
    var d := Call((a / MILLISECOND + window) * MILLISECOND, key, 1, window * MILLISECOND);
    SecondDecision(prefix, c, d);
    assert DurationMillis(c.window) == window;
    assert RedisStep(None, a / MILLISECOND, c).0 == Some(Redis.Cell(1, Some(a / MILLISECOND + window)));
  }

  /**
   A window that is not a whole number of milliseconds gives different waits, and from one
   millisecond up different verdicts.
   */
  lemma PartialWindowDiffers(prefix: string, key: string, t: int, window: int)
    requires IsKey(key) && window > 0 && window % MILLISECOND != 0
    ensures
      var calls := Pair(key, t * MILLISECOND, window, t * MILLISECOND, window);
      RedisDecision(prefix, calls, 1).retryAfter != MemoryDecision(calls, 1).retryAfter
    ensures window > MILLISECOND ==>
              var calls := Pair(key, t * MILLISECOND, window, (t + window / MILLISECOND) * MILLISECOND, window);
              RedisDecision(prefix, calls, 1).allowed && !MemoryDecision(calls, 1).allowed
  {
    var c := Call(t * MILLISECOND, key, 1, window);
    var d := Call((t + window / MILLISECOND) * MILLISECOND, key, 1, window);
    SecondDecision(prefix, c, c);
    SecondDecision(prefix, c, d);
    assert RedisStep(None, t, c).0 == Some(Redis.Cell(1, Some(t + DurationMillis(window))));
  }

  // Which windows a key may be called with, and which times calls may come at.
  ghost predicate Respects(calls: seq<Call>, windows: (string, int) -> bool, times: int -> bool) {
    && Monotone(calls)
    && forall i | 0 <= i < |calls| :: windows(Key(calls[i]), calls[i].window) && times(calls[i].now)
  }

  // On no run within these windows and times do the limiters give different decisions.
  ghost predicate AlwaysAgree(prefix: string, windows: (string, int) -> bool, times: int -> bool) {
    forall calls, i: nat | Respects(calls, windows, times) && i < |calls| ::
      RedisDecision(prefix, calls, i) == MemoryDecision(calls, i)
  }

  // Every key has at most one window, a whole number of milliseconds.
  ghost predicate OneWholeWindow(windows: (string, int) -> bool) {
    forall key, v, w | IsKey(key) && v > 0 && w > 0 && windows(key, v) && windows(key, w) ::
      v == w && v % MILLISECOND == 0
  }

  // Some call can be counted at all.
  ghost predicate SomeWindow(windows: (string, int) -> bool) {
    exists key, w :: IsKey(key) && w > 0 && windows(key, w)
  }

  ghost predicate WholeTimes(times: int -> bool) {
    forall t | times(t) :: t % MILLISECOND == 0
  }

  // The one window of a key, if it has one.
  ghost function WindowOf(windows: (string, int) -> bool, key: string): int {
    if w :| w > 0 && windows(key, w) then w else MILLISECOND
  }

  lemma TrimmedKey(c: Call)
    ensures Key(c) != "" ==> IsKey(Key(c))
  {
    Text.TrimTrimmed(c.key);
  }

  // A call that is not valid changes nothing.
  lemma {:induction false} InvalidCallsAreInvisible(prefix: string, calls: seq<Call>)
    ensures MemoryRun(ValidOnes(calls)) == MemoryRun(calls)
    ensures RedisRun(prefix, ValidOnes(calls)) == RedisRun(prefix, calls)
  {
    if calls != [] {
      var init := calls[..|calls| - 1];
      InvalidCallsAreInvisible(prefix, init);
      var v := ValidOnes(init);
      assert (v + [calls[|calls| - 1]])[..|v|] == v;
    }
  }

  function ValidOnes(calls: seq<Call>): seq<Call> {
    if calls == [] then []
    else
      var init, c := ValidOnes(calls[..|calls| - 1]), calls[|calls| - 1];
      if Valid(c) then init + [c] else init
  }

  lemma {:induction false} ValidOnesAre(calls: seq<Call>)
    ensures forall c :: c in ValidOnes(calls) <==> c in calls && Valid(c)
  {
    if calls != [] {
      ValidOnesAre(calls[..|calls| - 1]);
      assert calls == calls[..|calls| - 1] + [calls[|calls| - 1]];
    }
  }

  // The valid calls of a run within the conditions satisfy those of the agreement theorem.
  lemma RegularRunsAgree(prefix: string, windows: (string, int) -> bool, times: int -> bool, calls: seq<Call>, i: nat)
    requires OneWholeWindow(windows) && (SomeWindow(windows) ==> WholeTimes(times))
    requires Respects(calls, windows, times) && i < |calls|
    ensures RedisDecision(prefix, calls, i) == MemoryDecision(calls, i)
  {
    var c := calls[i];
    if Valid(c) {
      var before := ValidOnes(calls[..i]);
      InvalidCallsAreInvisible(prefix, calls[..i]);
      ValidOnesAre(calls[..i]);
      var run := before + [c];
      var ms := (key: string) => WindowOf(windows, key) / MILLISECOND;
      assert run[..|before|] == before;
      forall j | 0 <= j < |run|
        ensures run[j].window == ms(Key(run[j])) * MILLISECOND && run[j].now % MILLISECOND == 0
      {
        assert run[j] in calls && Valid(run[j]) by {
          if j < |before| {
            assert run[j] in before;
          }
        }
        RegularCall(windows, times, run[j]);
      }
      LimitersAgreeAtMillis(prefix, ms, run, |before|);
    }
  }

  lemma RegularCall(windows: (string, int) -> bool, times: int -> bool, c: Call)
    requires OneWholeWindow(windows) && (SomeWindow(windows) ==> WholeTimes(times))
    requires Valid(c) && windows(Key(c), c.window) && times(c.now)
    ensures c.window == WindowOf(windows, Key(c)) / MILLISECOND * MILLISECOND && c.now % MILLISECOND == 0
  {
    TrimmedKey(c);
    assert SomeWindow(windows);
    assert WindowOf(windows, Key(c)) == c.window;
  }

  lemma PairRespects(
    key: string, t1: int, w1: int, t2: int, w2: int, windows: (string, int) -> bool, times: int -> bool)
    requires IsKey(key) && t1 <= t2 && windows(key, w1) && windows(key, w2) && times(t1) && times(t2)
    ensures Respects(Pair(key, t1, w1, t2, w2), windows, times)
  {
  }

  // The n-th whole millisecond from the one that `a` falls into.
  function MillisAfter(a: int, n: int): int {
    (a / MILLISECOND + n) * MILLISECOND
  }

  // Calls may come at some time, and at every whole millisecond after a time they may come at.
  ghost predicate Running(times: int -> bool) {
    && (exists a :: times(a))
    && (forall a, n: int {:trigger MillisAfter(a, n)} | times(a) && n >= 1 :: times(MillisAfter(a, n)))
  }

  /**
   The two limiters agree on all runs within given windows and call times exactly when every
   key has at most one window, a whole number of milliseconds, and, if any key has one at
   all, calls come at whole milliseconds only.
   */
  lemma AgreementIff(prefix: string, windows: (string, int) -> bool, times: int -> bool)
    requires Running(times)
    ensures AlwaysAgree(prefix, windows, times) <==>
            OneWholeWindow(windows) && (SomeWindow(windows) ==> WholeTimes(times))
  {
    if OneWholeWindow(windows) && (SomeWindow(windows) ==> WholeTimes(times)) {
      forall calls, i: nat | Respects(calls, windows, times) && i < |calls|
        ensures RedisDecision(prefix, calls, i) == MemoryDecision(calls, i)
      {
        RegularRunsAgree(prefix, windows, times, calls, i);
      }
    } else {
      DisagreementFound(prefix, windows, times);
    }
  }

  lemma DisagreementFound(prefix: string, windows: (string, int) -> bool, times: int -> bool)
    requires Running(times) && !(OneWholeWindow(windows) && (SomeWindow(windows) ==> WholeTimes(times)))
    ensures !AlwaysAgree(prefix, windows, times)
  {
    var a :| times(a);
    if key, w :| IsKey(key) && w > 0 && windows(key, w) && w % MILLISECOND != 0 {
      PartialWindowFound(prefix, windows, times, a, key, w);
    } else if !OneWholeWindow(windows) {
      var key, v, w :|
        IsKey(key) && v > 0 && w > 0 && windows(key, v) && windows(key, w) && (v != w || v % MILLISECOND != 0);
      TwoWindowsFound(prefix, windows, times, a, key, v / MILLISECOND, w / MILLISECOND);
    } else {
      var key, w :| IsKey(key) && w > 0 && windows(key, w);
      var b :| times(b) && b % MILLISECOND != 0;
      FractionFound(prefix, windows, times, b, key, w / MILLISECOND);
    }
  }

  lemma PartialWindowFound(
    prefix: string, windows: (string, int) -> bool, times: int -> bool, a: int, key: string, w: int)
    requires Running(times) && times(a)
    requires IsKey(key) && w > 0 && windows(key, w) && w % MILLISECOND != 0
    ensures !AlwaysAgree(prefix, windows, times)
  {
    var t := MillisAfter(a, 1);
    PartialWindowDiffers(prefix, key, a / MILLISECOND + 1, w);
    PairRespects(key, t, w, t, w, windows, times);
  }

  lemma TwoWindowsFound(
    prefix: string, windows: (string, int) -> bool, times: int -> bool, a: int, key: string, v: int, w: int)
    requires Running(times) && times(a)
    requires IsKey(key) && v > 0 && w > 0 && v != w && windows(key, v * MILLISECOND) && windows(key, w * MILLISECOND)
    ensures !AlwaysAgree(prefix, windows, times)
  {
    ChangingWindowDiffers(prefix, key, a / MILLISECOND + 1, v, w);
    var t, u := MillisAfter(a, 1), MillisAfter(a, 1 + Min(v, w));
    PairRespects(key, t, v * MILLISECOND, u, w * MILLISECOND, windows, times);
  }

  lemma FractionFound(
    prefix: string, windows: (string, int) -> bool, times: int -> bool, a: int, key: string, w: int)
    requires Running(times) && times(a) && a % MILLISECOND != 0
    requires IsKey(key) && w > 0 && windows(key, w * MILLISECOND)
    ensures !AlwaysAgree(prefix, windows, times)
  {
    FractionsDiffer(prefix, key, w, a);
    PairRespects(key, a, w * MILLISECOND, MillisAfter(a, w), w * MILLISECOND, windows, times);
  }

  // ---------- How many calls are admitted ----------

  // The calls admitted for `key` at times in [from, to).
  ghost function Admitted(calls: seq<Call>, key: string, from: int, to: int): nat {
    if calls == [] then 0
    else
      var last := |calls| - 1;
      var hit := Key(calls[last]) == key && MemoryDecision(calls, last).allowed && from <= calls[last].now < to;
      Admitted(calls[..last], key, from, to) + if hit then 1 else 0
  }

  lemma {:induction false} AdmittedSplits(calls: seq<Call>, key: string, a: int, b: int, c: int)
    requires a <= b <= c
    ensures Admitted(calls, key, a, c) == Admitted(calls, key, a, b) + Admitted(calls, key, b, c)
  {
    if calls != [] {
      AdmittedSplits(calls[..|calls| - 1], key, a, b, c);
    }
  }

  ghost predicate Monotone(calls: seq<Call>) {
    forall i, j | 0 <= i < j < |calls| :: calls[i].now <= calls[j].now
  }

  // Every call on `key` uses the same limit and window.
  ghost predicate Fixed(calls: seq<Call>, key: string, limit: int, window: int) {
    forall i | 0 <= i < |calls| && Key(calls[i]) == key :: calls[i].limit == limit && calls[i].window == window
  }

  // Where the admissions of a key lie, given its bucket.
  ghost predicate Placed(calls: seq<Call>, key: string, limit: int, window: int, b: Bucket) {
    var start := b.windowStart;
    && 1 <= b.count <= limit
    && (forall a, e | start + window <= a :: Admitted(calls, key, a, e) == 0)
    && (forall a, e | start <= a :: Admitted(calls, key, a, e) <= b.count)
    && (forall e | start + window <= e :: Admitted(calls, key, start, e) == b.count)
    && (forall a, e | start < a :: Admitted(calls, key, a, e) <= b.count - 1)
    && (forall a, e | start - window < a && e <= start :: Admitted(calls, key, a, e) <= limit - 1)
    && (forall a, e | e <= a + window :: Admitted(calls, key, a, e) <= 2 * limit - 1)
  }

  lemma SameWindow(
    calls: seq<Call>, init: seq<Call>, key: string, limit: int, window: int, b: Bucket, now: int)
    requires Placed(init, key, limit, window, b)
    requires b.count < limit && b.windowStart <= now < b.windowStart + window
    requires forall a, e ::
               Admitted(calls, key, a, e) == Admitted(init, key, a, e) + if a <= now < e then 1 else 0
    ensures Placed(calls, key, limit, window, b.(count := b.count + 1))
  {
    forall a, e | e <= a + window
      ensures Admitted(calls, key, a, e) <= 2 * limit - 1
    {
      if a < b.windowStart && a <= now < e {
        AdmittedSplits(init, key, a, b.windowStart, e);
      }
    }
  }

  lemma NextWindow(
    calls: seq<Call>, init: seq<Call>, key: string, limit: int, window: int, b: Bucket, now: int)
    requires window > 0 && Placed(init, key, limit, window, b)
    requires b.windowStart + window <= now
    requires forall a, e ::
               Admitted(calls, key, a, e) == Admitted(init, key, a, e) + if a <= now < e then 1 else 0
    ensures Placed(calls, key, limit, window, Bucket(now, 1))
  {
  }

  // What a further call does to the bucket of `key` and to its admissions.
  lemma LastCall(calls: seq<Call>, key: string)
    requires calls != [] && key != ""
    ensures
      var init, c := calls[..|calls| - 1], calls[|calls| - 1];
      var before := Lookup(MemoryRun(init), key);
      var here := Key(c) == key && Valid(c);
      && Lookup(MemoryRun(calls), key) == (if here then Some(MemoryStep(before, c).0) else before)
      && forall a, e :: Admitted(calls, key, a, e) ==
           Admitted(init, key, a, e) + if here && MemoryStep(before, c).1.allowed && a <= c.now < e then 1 else 0
  {
  }

  ghost predicate Tracked(calls: seq<Call>, key: string, limit: int, window: int, b: Option<Bucket>, now: int) {
    match b
    case None => forall a, e :: Admitted(calls, key, a, e) == 0
    case Some(b) => Placed(calls, key, limit, window, b) && b.windowStart <= now
  }

  // A further call of the key, seen through the numbers of its admissions.
  lemma StepTracked(calls: seq<Call>, init: seq<Call>, limit: int, window: int, b: Option<Bucket>, c: Call)
    requires Valid(c) && c.limit == limit && c.window == window
    requires Tracked(init, Key(c), limit, window, b, c.now)
    requires forall a, e :: Admitted(calls, Key(c), a, e) ==
               Admitted(init, Key(c), a, e) + if MemoryStep(b, c).1.allowed && a <= c.now < e then 1 else 0
    ensures Tracked(calls, Key(c), limit, window, Some(MemoryStep(b, c).0), c.now)
  {
    if MemoryStep(b, c).1.allowed && b.Some? {
      if c.now - b.value.windowStart >= window {
        NextWindow(calls, init, Key(c), limit, window, b.value, c.now);
      } else {
        SameWindow(calls, init, Key(c), limit, window, b.value, c.now);
      }
    }
  }

  lemma {:induction false} AdmissionsPlaced(calls: seq<Call>, key: string, limit: int, window: int, now: int)
    requires key != "" && limit > 0 && window > 0
    requires Monotone(calls) && Fixed(calls, key, limit, window)
    requires calls != [] ==> calls[|calls| - 1].now <= now
    ensures Tracked(calls, key, limit, window, Lookup(MemoryRun(calls), key), now)
  {
    if calls != [] {
      var init, c := calls[..|calls| - 1], calls[|calls| - 1];
      assert forall i | 0 <= i < |init| :: init[i] == calls[i];
      AdmissionsPlaced(init, key, limit, window, c.now);
      LastCall(calls, key);
      if Key(c) == key {
        StepTracked(calls, init, limit, window, Lookup(MemoryRun(init), key), c);
      }
    }
  }

  /**
   With a fixed limit and window and a clock that never goes back, a half-open
   interval as long as the window holds at most 2 * limit - 1 admissions of a key.
   */
  lemma AdmissionsPerInterval(calls: seq<Call>, key: string, limit: int, window: int, a: int)
    requires key != "" && limit > 0 && window > 0
    requires Monotone(calls) && Fixed(calls, key, limit, window)
    ensures Admitted(calls, key, a, a + window) <= 2 * limit - 1
  {
    AdmissionsPlaced(calls, key, limit, window, if calls == [] then 0 else calls[|calls| - 1].now);
  }

  // The window [start, start + window) of a call: it holds the call and begins with an admission.
  ghost predicate OpenWindow(calls: seq<Call>, c: Call, start: int) {
    && start <= c.now < start + c.window
    && Admitted(calls, Key(c), start, start + 1) >= 1
  }

  // A bucket counts the admissions of its window, the first of which is at its start.
  lemma CountsOfPlaced(calls: seq<Call>, key: string, limit: int, window: int, b: Bucket)
    requires Placed(calls, key, limit, window, b) && window > 0
    ensures Admitted(calls, key, b.windowStart, b.windowStart + window) == b.count
    ensures Admitted(calls, key, b.windowStart, b.windowStart + 1) >= 1
  {
    AdmittedSplits(calls, key, b.windowStart, b.windowStart + 1, b.windowStart + window);
  }

  lemma BucketCounts(before: seq<Call>, c: Call) returns (b: Bucket)
    requires Valid(c) && Monotone(before) && Fixed(before, Key(c), c.limit, c.window)
    requires before != [] ==> before[|before| - 1].now <= c.now
    ensures b == MemoryStep(Lookup(MemoryRun(before), Key(c)), c).0
    ensures b.windowStart <= c.now && b.count <= c.limit
    ensures Admitted(before + [c], Key(c), b.windowStart, b.windowStart + c.window) == b.count
    ensures Admitted(before + [c], Key(c), b.windowStart, b.windowStart + 1) >= 1
  {
    var all := before + [c];
    assert all[..|before|] == before && all[|all| - 1] == c;
    AdmissionsPlaced(all, Key(c), c.limit, c.window, c.now);
    LastCall(all, Key(c));
    b := MemoryStep(Lookup(MemoryRun(before), Key(c)), c).0;
    CountsOfPlaced(all, Key(c), c.limit, c.window, b);
  }

  /**
   What is remaining after an admission is the limit less the admissions of the window of the
   call, and a call is admitted as long as that window has room.
   */
  lemma RemainingIsExact(before: seq<Call>, c: Call) returns (start: int)
    requires Valid(c) && Monotone(before) && Fixed(before, Key(c), c.limit, c.window)
    requires before != [] ==> before[|before| - 1].now <= c.now
    ensures
      var d, n := MemoryAllow(MemoryRun(before), c).1, Admitted(before + [c], Key(c), start, start + c.window);
      && OpenWindow(before + [c], c, start)
      && (if d.allowed then d.remaining == c.limit - n >= 0 else d.remaining == 0 && n == c.limit)
  {
    var b := BucketCounts(before, c);
    start := b.windowStart;
  }

  // ---------- How long a refused caller waits ----------

  // All calls on `key` fall into [from, to).
  ghost predicate Within(calls: seq<Call>, key: string, from: int, to: int) {
    forall i | 0 <= i < |calls| && Key(calls[i]) == key :: from <= calls[i].now < to
  }

  // A full bucket stays as it is, and refuses, until its window has passed.
  lemma {:induction false} FullUntil(
    before: seq<Call>, after: seq<Call>, key: string, limit: int, window: int, b: Bucket)
    requires key != "" && limit > 0 && window > 0
    requires Lookup(MemoryRun(before), key) == Some(b) && b.count >= limit
    requires Fixed(after, key, limit, window) && Within(after, key, b.windowStart, b.windowStart + window)
    ensures Lookup(MemoryRun(before + after), key) == Some(b)
  {
    if after == [] {
      assert before + after == before;
    } else {
      var init, all := after[..|after| - 1], before + after;
      assert all[..|all| - 1] == before + init && all[|all| - 1] == after[|after| - 1];
      assert forall i | 0 <= i < |init| :: init[i] == after[i];
      FullUntil(before, init, key, limit, window, b);
      LastCall(all, key);
    }
  }

  // A refusal finds a full bucket of the current window, and leaves it as it is.
  lemma RefusalFindsFullBucket(before: seq<Call>, c: Call) returns (b: Bucket)
    requires Valid(c) && !MemoryAllow(MemoryRun(before), c).1.allowed
    requires Monotone(before) && Fixed(before, Key(c), c.limit, c.window)
    requires before != [] ==> before[|before| - 1].now <= c.now
    ensures Lookup(MemoryRun(before + [c]), Key(c)) == Some(b)
    ensures b.count >= c.limit && b.windowStart <= c.now < b.windowStart + c.window
    ensures MemoryAllow(MemoryRun(before), c).1.retryAfter == b.windowStart + c.window - c.now
  {
    b := MemoryStep(Lookup(MemoryRun(before), Key(c)), c).0;
    assert b.windowStart <= c.now by {
      AdmissionsPlaced(before, Key(c), c.limit, c.window, c.now);
    }
    var all := before + [c];
    assert all[..|before|] == before && all[|all| - 1] == c;
    LastCall(all, Key(c));
  }

  /**
   RetryAfter is exact: whatever else is called before the wait is over, a further call
   on the key is admitted if and only if it comes after the wait.
   */
  lemma RetryAfterIsExact(before: seq<Call>, c: Call, after: seq<Call>, next: Call)
    requires Valid(c) && !MemoryAllow(MemoryRun(before), c).1.allowed
    requires Monotone(before) && Fixed(before, Key(c), c.limit, c.window)
    requires before != [] ==> before[|before| - 1].now <= c.now
    requires Fixed(after, Key(c), c.limit, c.window)
    requires Within(after, Key(c), c.now, c.now + MemoryAllow(MemoryRun(before), c).1.retryAfter)
    requires Key(next) == Key(c) && next.limit == c.limit && next.window == c.window && next.now >= c.now
    ensures MemoryAllow(MemoryRun(before), c).1.retryAfter > 0
    ensures MemoryAllow(MemoryRun(before + [c] + after), next).1.allowed
            <==> next.now >= c.now + MemoryAllow(MemoryRun(before), c).1.retryAfter
  {
    var b := RefusalFindsFullBucket(before, c);
    FullUntil(before + [c], after, Key(c), c.limit, c.window, b);
  }

  // ---------- The bound is reached ----------

  function Burst(c: Call, n: nat): seq<Call> {
    if n == 0 then [] else Burst(c, n - 1) + [c]
  }

  // The bucket of a key and how many of its calls were admitted at times in [from, to).
  datatype Tally = Tally(bucket: Option<Bucket>, admitted: nat)

  ghost function TallyStep(t: Tally, key: string, from: int, to: int, c: Call): Tally {
    if Key(c) != key || !Valid(c) then t
    else
      var (b, d) := MemoryStep(t.bucket, c);
      Tally(Some(b), t.admitted + if d.allowed && from <= c.now < to then 1 else 0)
  }

  ghost function TallyOf(calls: seq<Call>, key: string, from: int, to: int): Tally {
    if calls == [] then Tally(None, 0)
    else TallyStep(TallyOf(calls[..|calls| - 1], key, from, to), key, from, to, calls[|calls| - 1])
  }

  lemma {:induction false} TallyIsFaithful(calls: seq<Call>, key: string, from: int, to: int)
    requires key != ""
    ensures TallyOf(calls, key, from, to) == Tally(Lookup(MemoryRun(calls), key), Admitted(calls, key, from, to))
  {
    if calls != [] {
      TallyIsFaithful(calls[..|calls| - 1], key, from, to);
      LastCall(calls, key);
    }
  }

  ghost function Repeated(t: Tally, from: int, to: int, c: Call, n: nat): Tally {
    if n == 0 then t else TallyStep(Repeated(t, from, to, c, n - 1), Key(c), from, to, c)
  }

  lemma {:induction false} BurstRepeats(before: seq<Call>, c: Call, n: nat, from: int, to: int)
    ensures TallyOf(before + Burst(c, n), Key(c), from, to) ==
            Repeated(TallyOf(before, Key(c), from, to), from, to, c, n)
  {
    var all := before + Burst(c, n);
    if n == 0 {
      assert all == before;
    } else {
      BurstRepeats(before, c, n - 1, from, to);
      assert all[..|all| - 1] == before + Burst(c, n - 1) && all[|all| - 1] == c;
    }
  }

  // Calls that fit are all admitted.
  lemma {:induction false} RepeatedFits(t: Tally, from: int, to: int, c: Call, n: nat)
    requires Valid(c) && n > 0 && Current(t.bucket, c).count + n <= c.limit
    ensures
      var b := Current(t.bucket, c);
      Repeated(t, from, to, c, n) ==
      Tally(Some(b.(count := b.count + n)), t.admitted + if from <= c.now < to then n else 0)
  {
    if n > 1 {
      RepeatedFits(t, from, to, c, n - 1);
    }
  }

  // One call opens the window, limit - 1 come at its end and limit at the start of the next one.
  function DoubleBurst(key: string, limit: int, window: int): seq<Call>
    requires limit > 0
  {
    Burst(Call(0, key, limit, window), 1) + Burst(Call(window - 1, key, limit, window), limit - 1)
    + Burst(Call(window, key, limit, window), limit)
  }

  lemma {:induction false} BurstCalls(c: Call, n: nat)
    ensures |Burst(c, n)| == n && forall i | 0 <= i < n :: Burst(c, n)[i] == c
  {
    if n > 0 {
      BurstCalls(c, n - 1);
    }
  }

  lemma DoubleBurstIsRegular(key: string, limit: int, window: int)
    requires limit > 0 && window > 1
    ensures Monotone(DoubleBurst(key, limit, window)) && Fixed(DoubleBurst(key, limit, window), key, limit, window)
  {
    BurstCalls(Call(0, key, limit, window), 1);
    BurstCalls(Call(window - 1, key, limit, window), limit - 1);
    BurstCalls(Call(window, key, limit, window), limit);
  }

  lemma BurstsRepeat(c: Call, m: nat, d: Call, n: nat, e: Call, k: nat, from: int, to: int)
    requires Key(c) == Key(d) == Key(e)
    ensures TallyOf(Burst(c, m) + Burst(d, n) + Burst(e, k), Key(c), from, to) ==
            Repeated(Repeated(Repeated(Tally(None, 0), from, to, c, m), from, to, d, n), from, to, e, k)
  {
    assert [] + Burst(c, m) == Burst(c, m);
    BurstRepeats([], c, m, from, to);
    BurstRepeats(Burst(c, m), d, n, from, to);
    BurstRepeats(Burst(c, m) + Burst(d, n), e, k, from, to);
  }

  // The first call falls before the interval; the other 2 * limit - 1 fit into two windows.
  lemma BurstsFit(c: Call, d: Call, e: Call)
    requires Valid(c) && c.now == 0 && c.window > 1
    requires d == c.(now := c.window - 1) && e == c.(now := c.window)
    ensures
      var from, to := 1, 1 + c.window;
      var first := Repeated(Tally(None, 0), from, to, c, 1);
      var second := Repeated(first, from, to, d, c.limit - 1);
      Repeated(second, from, to, e, c.limit) == Tally(Some(Bucket(c.window, c.limit)), 2 * c.limit - 1)
  {
    var from, to := 1, 1 + c.window;
    RepeatedFits(Tally(None, 0), from, to, c, 1);
    if c.limit > 1 {
      RepeatedFits(Tally(Some(Bucket(0, 1)), 0), from, to, d, c.limit - 1);
    }
    RepeatedFits(Tally(Some(Bucket(0, c.limit)), c.limit - 1), from, to, e, c.limit);
  }

  /** For every limit and every window of at least two ticks some such run reaches the bound. */
  lemma BoundIsReached(key: string, limit: int, window: int)
    requires IsKey(key) && limit > 0 && window > 1
    ensures Monotone(DoubleBurst(key, limit, window)) && Fixed(DoubleBurst(key, limit, window), key, limit, window)
    ensures Admitted(DoubleBurst(key, limit, window), key, 1, 1 + window) == 2 * limit - 1
  {
    DoubleBurstIsRegular(key, limit, window);
    var c, d, e := Call(0, key, limit, window), Call(window - 1, key, limit, window), Call(window, key, limit, window);
    TallyIsFaithful(Burst(c, 1) + Burst(d, limit - 1) + Burst(e, limit), key, 1, 1 + window);
    BurstsRepeat(c, 1, d, limit - 1, e, limit, 1, 1 + window);
    BurstsFit(c, d, e);
  }
}
