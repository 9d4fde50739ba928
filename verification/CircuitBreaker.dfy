/**
 The circuit breaker of circuitbreaker/breaker.go.  The circuit of a key is
 characterised by the history of the calls on that key.
 */
module CircuitBreaker {
  import opened Wrappers

  const SECOND: int := 1_000_000_000

  datatype State = Closed | Open | HalfOpen

  datatype Config = Config(failureThreshold: int, openDuration: int, halfOpenMaxRequests: int)

  // Zero settings take their defaults.
  function WithDefaults(c: Config): Config {
    Config(if c.failureThreshold == 0 then 5 else c.failureThreshold,
           if c.openDuration == 0 then 30 * SECOND else c.openDuration,
           if c.halfOpenMaxRequests == 0 then 3 else c.halfOpenMaxRequests)
  }

  // `openUntil` means nothing before the circuit first opens.
  datatype Circuit = Circuit(state: State, failures: int, successes: int, openUntil: int)

  const NEW := Circuit(Closed, 0, 0, 0)

  datatype Event = Check(now: int) | Success | Failure(now: int)

  // ---------- One circuit ----------

  function Step(cfg: Config, c: Circuit, e: Event): Circuit {
    match e
    case Check(now) => if c.state.Open? && now > c.openUntil then c.(state := HalfOpen, successes := 0) else c
    case Success =>
      if c.state.HalfOpen? && c.successes + 1 >= cfg.halfOpenMaxRequests then
        c.(state := Closed, failures := 0, successes := 0)
      else c.(failures := 0, successes := c.successes + 1)
    case Failure(now) =>
      var d := c.(failures := c.failures + 1, successes := 0);
      if c.state.Closed? && d.failures < cfg.failureThreshold then d
      else d.(state := Open, openUntil := now + cfg.openDuration)
  }

  // Whether a Check lets the request through.
  predicate Admits(c: Circuit, now: int) {
    c.state.Open? ==> now > c.openUntil
  }

  function Run(cfg: Config, events: seq<Event>): Circuit {
    if events == [] then NEW else Step(cfg, Run(cfg, events[..|events| - 1]), events[|events| - 1])
  }

  // ---------- The breaker ----------

  class Cell {
    var circuit: Circuit

    constructor ()
      ensures circuit == NEW
    {
      circuit := NEW;
    }
  }

  class Breaker {
    const config: Config
    var states: map<string, Cell>

    // Every key has its own circuit.
    ghost predicate Valid()
      reads this
    {
      forall a, b | a in states && b in states && a != b :: states[a] != states[b]
    }

    // The circuit of a key; one never used is new.
    ghost function CircuitOf(key: string): Circuit
      reads this, states.Values
    {
      if key in states then states[key].circuit else NEW
    }

    constructor (cfg: Config)
      ensures config.failureThreshold == if cfg.failureThreshold == 0 then 5 else cfg.failureThreshold
      ensures config.openDuration == if cfg.openDuration == 0 then 30_000_000_000 else cfg.openDuration
      ensures config.halfOpenMaxRequests == if cfg.halfOpenMaxRequests == 0 then 3 else cfg.halfOpenMaxRequests
      ensures Valid() && states == map[]
      ensures forall k :: CircuitOf(k) == NEW
    {
      config := WithDefaults(cfg);
      states := map[];
    }

    method IsAvailable(key: string, now: int) returns (available: bool)
      requires Valid()
      modifies states.Values
      ensures Valid() && states == old(states)
      ensures available == Admits(old(CircuitOf(key)), now)
      ensures forall k :: CircuitOf(k) ==
                if k == key then Step(config, old(CircuitOf(k)), Check(now)) else old(CircuitOf(k))
    {
      if key !in states {
        return true;
      }
      var s := states[key];
      match s.circuit.state {
        case Closed => return true;
        case HalfOpen => return true;
        case Open =>
          if now > s.circuit.openUntil {
            s.circuit := s.circuit.(state := HalfOpen, successes := 0);
            return true;
          }
          return false;
      }
    }

    method GetOrCreate(key: string) returns (s: Cell)
      requires Valid()
      modifies this`states
      ensures Valid() && key in states && states[key] == s
      ensures forall v | v in states.Values :: v in old(states.Values) || fresh(v)
      ensures forall k :: CircuitOf(k) == old(CircuitOf(k))
    {
      if key in states {
        s := states[key];
      } else {
        s := new Cell();
        states := states[key := s];
      }
    }

    method RecordSuccess(key: string)
      requires Valid()
      modifies this`states, states.Values
      ensures Valid()
      ensures forall k :: CircuitOf(k) ==
                if k == key then Step(config, old(CircuitOf(k)), Success) else old(CircuitOf(k))
    {
      var s := GetOrCreate(key);
      s.circuit := s.circuit.(failures := 0, successes := s.circuit.successes + 1);
      if s.circuit.state.HalfOpen? && s.circuit.successes >= config.halfOpenMaxRequests {
        s.circuit := s.circuit.(state := Closed, successes := 0);
      }
    }

    method RecordFailure(key: string, now: int)
      requires Valid()
      modifies this`states, states.Values
      ensures Valid()
      ensures forall k :: CircuitOf(k) ==
                if k == key then Step(config, old(CircuitOf(k)), Failure(now)) else old(CircuitOf(k))
    {
      var s := GetOrCreate(key);
      s.circuit := s.circuit.(failures := s.circuit.failures + 1, successes := 0);
      match s.circuit.state {
        case Closed =>
          if s.circuit.failures >= config.failureThreshold {
            s.circuit := s.circuit.(state := Open, openUntil := now + config.openDuration);
          }
        case HalfOpen =>
          s.circuit := s.circuit.(state := Open, openUntil := now + config.openDuration);
        case Open =>
          s.circuit := s.circuit.(openUntil := now + config.openDuration);
      }
    }
  }

  // ---------- Independence of keys ----------

  type KeyedEvent = (string, Event)

  // The circuits after calls on many keys.
  function RunAll(cfg: Config, calls: seq<KeyedEvent>): map<string, Circuit> {
    if calls == [] then map[]
    else
      var m, (key, e) := RunAll(cfg, calls[..|calls| - 1]), calls[|calls| - 1];
      m[key := Step(cfg, if key in m then m[key] else NEW, e)]
  }

  function Of(calls: seq<KeyedEvent>, key: string): seq<Event> {
    if calls == [] then []
    else
      var init, last := Of(calls[..|calls| - 1], key), calls[|calls| - 1];
      if last.0 == key then init + [last.1] else init
  }

  /** The circuit of a key depends on the calls on that key only. */
  lemma {:induction false} KeysAreIndependent(cfg: Config, calls: seq<KeyedEvent>, key: string)
    ensures
      var m := RunAll(cfg, calls);
      (if key in m then m[key] else NEW) == Run(cfg, Of(calls, key))
  {
    if calls != [] {
      KeysAreIndependent(cfg, calls[..|calls| - 1], key);
      var init := Of(calls[..|calls| - 1], key);
      assert (init + [calls[|calls| - 1].1])[..|init|] == init;
    }
  }

  // ---------- What the history says ----------

  // Failures since the latest success, checks aside.
  function TrailingFailures(events: seq<Event>): nat {
    if events == [] || events[|events| - 1].Success? then 0
    else TrailingFailures(events[..|events| - 1]) + if events[|events| - 1].Failure? then 1 else 0
  }

  // Successes in a stretch of events.
  function SuccessCount(events: seq<Event>): nat {
    if events == [] then 0
    else SuccessCount(events[..|events| - 1]) + if events[|events| - 1].Success? then 1 else 0
  }

  predicate NoFailure(events: seq<Event>) {
    forall i | 0 <= i < |events| :: !events[i].Failure?
  }

  function LastFailure(events: seq<Event>): Option<int> {
    if events == [] then None
    else if events[|events| - 1].Failure? then Some(events[|events| - 1].now)
    else LastFailure(events[..|events| - 1])
  }

  predicate Positive(cfg: Config) {
    cfg.failureThreshold > 0 && cfg.openDuration > 0 && cfg.halfOpenMaxRequests > 0
  }

  /** The failure count is the trailing run of failures; in a closed circuit it is zero or below the threshold. */
  lemma {:induction false} FailuresAreTrailing(cfg: Config, events: seq<Event>)
    ensures Run(cfg, events).failures == TrailingFailures(events)
    ensures Run(cfg, events).state.Closed? ==>
              TrailingFailures(events) == 0 || TrailingFailures(events) < cfg.failureThreshold
  {
    if events != [] {
      FailuresAreTrailing(cfg, events[..|events| - 1]);
    }
  }

  lemma {:induction false} OpenUntilIsExact(cfg: Config, events: seq<Event>)
    ensures
      var c := Run(cfg, events);
      !c.state.Closed? ==> LastFailure(events).Some? && c.openUntil == LastFailure(events).value + cfg.openDuration
  {
    if events != [] {
      OpenUntilIsExact(cfg, events[..|events| - 1]);
    }
  }

  /** An open circuit blocks exactly until its last failure is more than the open duration ago. */
  lemma {:induction false} OpenBlocks(cfg: Config, events: seq<Event>, now: int)
    requires Run(cfg, events).state.Open?
    ensures LastFailure(events).Some?
    ensures Admits(Run(cfg, events), now) <==> now > LastFailure(events).value + cfg.openDuration
  {
    OpenUntilIsExact(cfg, events);
  }

  // ---------- Every change of state ----------

  lemma Extend(cfg: Config, events: seq<Event>, e: Event)
    ensures Run(cfg, events + [e]) == Step(cfg, Run(cfg, events), e)
  {
    assert (events + [e])[..|events|] == events;
  }

  /**
   A closed circuit opens exactly with the failure that brings the failures since the latest
   success to the threshold, and stays closed otherwise.
   */
  lemma OpensIff(cfg: Config, events: seq<Event>, e: Event)
    requires Run(cfg, events).state.Closed?
    ensures Run(cfg, events + [e]).state ==
            if e.Failure? && TrailingFailures(events + [e]) >= cfg.failureThreshold then Open else Closed
  {
    Extend(cfg, events, e);
    FailuresAreTrailing(cfg, events + [e]);
  }

  /** An open circuit becomes half-open exactly by a check when its last failure is more than the open duration ago. */
  lemma HalfOpensIff(cfg: Config, events: seq<Event>, e: Event)
    requires Run(cfg, events).state.Open?
    ensures LastFailure(events).Some?
    ensures Run(cfg, events + [e]).state ==
            if e.Check? && e.now > LastFailure(events).value + cfg.openDuration then HalfOpen else Open
  {
    Extend(cfg, events, e);
    OpenUntilIsExact(cfg, events);
  }

  /**
   A half-open circuit opens again with any failure, closes exactly with the
   HalfOpenMaxRequests-th success since the check at `k` that made it half-open, and
   stays half-open otherwise.
   */
  lemma LeavesHalfOpenIff(cfg: Config, events: seq<Event>, e: Event) returns (k: nat)
    requires Positive(cfg) && Run(cfg, events).state.HalfOpen?
    ensures ProbeAt(cfg, events, k) && NoFailure(events[k + 1..])
    ensures Run(cfg, events + [e]).state ==
            if e.Failure? then Open
            else if e.Success? && SuccessCount(events[k + 1..]) + 1 == cfg.halfOpenMaxRequests then Closed
            else HalfOpen
    ensures
      var c := Run(cfg, events + [e]);
      c.state.Closed? ==> c.failures == 0 && c.successes == 0
  {
    Extend(cfg, events, e);
    k := HalfOpenHistory(cfg, events);
  }

  /** A check is let through unless the circuit is open and its last failure is at most the open duration ago. */
  lemma AnswersIff(cfg: Config, events: seq<Event>, now: int)
    ensures !Admits(Run(cfg, events), now) <==>
            && Run(cfg, events).state.Open?
            && LastFailure(events).Some? && now <= LastFailure(events).value + cfg.openDuration
  {
    OpenUntilIsExact(cfg, events);
  }

  // All checks in the stretch come no later than `until`.
  predicate ChecksBy(events: seq<Event>, until: int) {
    forall i | 0 <= i < |events| && events[i].Check? :: events[i].now <= until
  }

  /** Whatever successes arrive, an open circuit stays open and refuses until the open duration is over. */
  lemma {:induction false} OpenStaysOpen(cfg: Config, before: seq<Event>, after: seq<Event>, until: int)
    requires Run(cfg, before).state.Open? && until == Run(cfg, before).openUntil
    requires NoFailure(after) && ChecksBy(after, until)
    ensures Run(cfg, before + after).state.Open? && Run(cfg, before + after).openUntil == until
  {
    if after == [] {
      assert before + after == before;
    } else {
      var init := after[..|after| - 1];
      assert (before + after)[..|before + after| - 1] == before + init;
      assert forall i | 0 <= i < |init| :: init[i] == after[i];
      OpenStaysOpen(cfg, before, init, until);
    }
  }

  // At position k a check finds the circuit open and lets the first probe through.
  ghost predicate ProbeAt(cfg: Config, events: seq<Event>, k: nat) {
    && k < |events| && events[k].Check?
    && Run(cfg, events[..k]).state.Open?
    && events[k].now > Run(cfg, events[..k]).openUntil
  }

  /** A half-open circuit was probed once, and since then has had no failure and this many successes. */
  lemma {:induction false} HalfOpenHistory(cfg: Config, events: seq<Event>) returns (k: nat)
    requires Positive(cfg) && Run(cfg, events).state.HalfOpen?
    ensures ProbeAt(cfg, events, k)
    ensures NoFailure(events[k + 1..])
    ensures Run(cfg, events).successes == SuccessCount(events[k + 1..]) < cfg.halfOpenMaxRequests
  {
    var n := |events| - 1;
    var init := events[..n];
    if Run(cfg, init).state.HalfOpen? {
      k := HalfOpenHistory(cfg, init);
      assert init[..k] == events[..k];
      assert events[k + 1..][..n - k - 1] == init[k + 1..];
      assert events[k + 1..] == init[k + 1..] + [events[n]];
    } else {
      k := n;
      assert events[k + 1..] == [];
    }
  }

  // Between a probe and the closing success the circuit is half-open.
  lemma {:induction false} HalfOpenRun(cfg: Config, events: seq<Event>, k: nat, j: nat, m: nat)
    requires Positive(cfg) && ProbeAt(cfg, events, k) && k < j < m <= |events|
    requires NoFailure(events[k + 1..m]) && SuccessCount(events[k + 1..m - 1]) < cfg.halfOpenMaxRequests
    ensures Run(cfg, events[..j]).state.HalfOpen? && Run(cfg, events[..j]).successes == SuccessCount(events[k + 1..j])
    decreases j
  {
    assert events[..j][..j - 1] == events[..j - 1];
    if k + 1 < j {
      HalfOpenRun(cfg, events, k, j - 1, m);
      assert events[k + 1..j][..j - k - 2] == events[k + 1..j - 1];
      assert events[j - 1] == events[k + 1..m][j - k - 2];
      CountMonotone(events, k + 1, j, m - 1);
    } else {
      assert events[k + 1..j] == [];
    }
  }

  lemma {:induction false} CountMonotone(events: seq<Event>, a: nat, j: nat, m: nat)
    requires a <= j <= m <= |events|
    ensures SuccessCount(events[a..j]) <= SuccessCount(events[a..m])
    decreases m
  {
    if j < m {
      assert events[a..m][..m - a - 1] == events[a..m - 1];
      CountMonotone(events, a, j, m - 1);
    }
  }

  lemma ProbeRuns(cfg: Config, events: seq<Event>, k: nat, m: nat)
    requires Positive(cfg) && ProbeAt(cfg, events, k) && k < m <= |events|
    requires NoFailure(events[k + 1..m]) && (k + 1 < m ==> SuccessCount(events[k + 1..m - 1]) < cfg.halfOpenMaxRequests)
    ensures forall j | k < j < m :: Run(cfg, events[..j]).state.HalfOpen?
  {
    forall j | k < j < m
      ensures Run(cfg, events[..j]).state.HalfOpen?
    {
      HalfOpenRun(cfg, events, k, j, m);
    }
  }

  // A probe at `k`, then successes without failure, the last of which is the deciding one.
  ghost predicate ClosingProbe(cfg: Config, events: seq<Event>, k: nat) {
    && k + 1 < |events| && ProbeAt(cfg, events, k)
    && NoFailure(events[k + 1..]) && events[|events| - 1].Success?
    && SuccessCount(events[k + 1..]) == cfg.halfOpenMaxRequests
    && forall j | k < j < |events| :: Run(cfg, events[..j]).state.HalfOpen?
  }

  lemma TailOfPrefix(events: seq<Event>, k: nat)
    requires k + 1 < |events|
    ensures
      var n := |events| - 1;
      var init, tail := events[..n], events[k + 1..];
      && init[..k] == events[..k] && tail == init[k + 1..] + [events[n]]
      && tail[..|tail| - 1] == init[k + 1..] && events[k + 1..n] == init[k + 1..] && events[k + 1..|events|] == tail
  {
  }

  // The success that closes a half-open circuit is the deciding one since its probe.
  lemma ClosingStep(cfg: Config, events: seq<Event>) returns (k: nat)
    requires Positive(cfg) && events != []
    requires Run(cfg, events).state.Closed? && !Run(cfg, events[..|events| - 1]).state.Closed?
    ensures ClosingProbe(cfg, events, k)
  {
    var init, e := events[..|events| - 1], events[|events| - 1];
    assert init + [e] == events;
    if Run(cfg, init).state.Open? {
      HalfOpensIff(cfg, init, e);
    } else {
      k := LeavesHalfOpenIff(cfg, init, e);
      DecidingSuccess(cfg, events, k);
    }
  }

  lemma DecidingSuccess(cfg: Config, events: seq<Event>, k: nat)
    requires Positive(cfg) && k + 1 < |events| && events[|events| - 1].Success?
    requires
      var init := events[..|events| - 1];
      && ProbeAt(cfg, init, k) && NoFailure(init[k + 1..])
      && SuccessCount(init[k + 1..]) + 1 == cfg.halfOpenMaxRequests
    ensures ClosingProbe(cfg, events, k)
  {
    TailOfPrefix(events, k);
    ProbeRuns(cfg, events, k, |events|);
  }

  lemma {:induction false} FirstClosing(cfg: Config, events: seq<Event>, i: nat) returns (m: nat)
    requires i <= |events| && !Run(cfg, events[..i]).state.Closed? && Run(cfg, events).state.Closed?
    ensures i < m <= |events| && Run(cfg, events[..m]).state.Closed? && !Run(cfg, events[..m - 1]).state.Closed?
  {
    assert events[..|events|] == events;
    var init := events[..|events| - 1];
    assert init[..i] == events[..i];
    if Run(cfg, init).state.Closed? {
      m := FirstClosing(cfg, init, i);
      assert init[..m] == events[..m] && init[..m - 1] == events[..m - 1];
    } else {
      m := |events|;
    }
  }

  /**
   An open circuit closes only through a probe: if it is open after `i` events and
   closed later, then some check after `i` found it due, it was half-open from there on,
   and the HalfOpenMaxRequests-th success since, with no failure among them, closed it.
   */
  lemma ClosesOnlyThroughProbes(cfg: Config, events: seq<Event>, i: nat) returns (k: nat, m: nat)
    requires Positive(cfg) && i <= |events|
    requires Run(cfg, events[..i]).state.Open? && Run(cfg, events).state.Closed?
    ensures i <= k < m <= |events| && ClosingProbe(cfg, events[..m], k)
  {
    m := FirstClosing(cfg, events, i);
    assert events[..m][..m - 1] == events[..m - 1] && events[..m][..i] == events[..i];
    k := ClosingStep(cfg, events[..m]);
  }

  /** From a probe on, that many successes in a row without failure do close the circuit, and no fewer. */
  lemma ProbesClose(cfg: Config, events: seq<Event>, k: nat)
    requires Positive(cfg) && ProbeAt(cfg, events, k) && k + 1 < |events|
    requires NoFailure(events[k + 1..]) && events[|events| - 1].Success?
    requires SuccessCount(events[k + 1..|events| - 1]) < cfg.halfOpenMaxRequests
    ensures Run(cfg, events).state.Closed? <==> SuccessCount(events[k + 1..]) == cfg.halfOpenMaxRequests
  {
    var n := |events| - 1;
    assert events[k + 1..|events|] == events[k + 1..];
    HalfOpenRun(cfg, events, k, n, |events|);
    assert events[k + 1..][..n - k - 1] == events[k + 1..n];
  }

  // ---------- How many callers probe ----------

  // Failures at time zero.
  function Failures(n: nat): seq<Event> {
    seq(n, _ => Failure(0))
  }

  // Checks at one moment.
  function Checks(n: nat, now: int): seq<Event> {
    seq(n, _ => Check(now))
  }

  lemma {:induction false} FailuresOpen(cfg: Config, n: nat)
    requires n <= cfg.failureThreshold
    ensures Run(cfg, Failures(n)) == if n < cfg.failureThreshold || n == 0 then Circuit(Closed, n, 0, 0)
                                     else Circuit(Open, n, 0, cfg.openDuration)
  {
    if n > 0 {
      assert Failures(n)[..n - 1] == Failures(n - 1);
      FailuresOpen(cfg, n - 1);
    }
  }

  lemma {:induction false} ChecksPass(cfg: Config, n: nat, now: int)
    requires Positive(cfg) && now > cfg.openDuration
    ensures
      var c := Run(cfg, Failures(cfg.failureThreshold) + Checks(n, now));
      (if n == 0 then c.state.Open? else c.state.HalfOpen?) && c.openUntil == cfg.openDuration
  {
    FailuresOpen(cfg, cfg.failureThreshold);
    var h := Failures(cfg.failureThreshold);
    if n == 0 {
      assert h + Checks(0, now) == h;
    } else {
      ChecksPass(cfg, n - 1, now);
      assert (h + Checks(n, now))[..|h| + n - 1] == h + Checks(n - 1, now);
    }
  }

  /**
   For every positive setting and every n, n callers in a row are let through after one
   opening, before any outcome is recorded.
   */
  lemma AnyNumberProbes(cfg: Config, n: nat, now: int)
    requires Positive(cfg) && now > cfg.openDuration
    ensures
      var h := Failures(cfg.failureThreshold);
      && Run(cfg, h).state.Open?
      && forall i: nat | i < n :: Admits(Run(cfg, h + Checks(i, now)), now)
  {
    FailuresOpen(cfg, cfg.failureThreshold);
    forall i: nat | i < n
      ensures Admits(Run(cfg, Failures(cfg.failureThreshold) + Checks(i, now)), now)
    {
      ChecksPass(cfg, i, now);
    }
  }

  /**
   From a probe until the next failure or the closing success every check is let through,
   whatever its time, and none of them finds the circuit open: the transition to
   half-open is made by exactly one check of an open period.
   */
  lemma OneTransitionManyProbes(cfg: Config, events: seq<Event>, k: nat, m: nat)
    requires Positive(cfg) && ProbeAt(cfg, events, k) && k < m <= |events|
    requires NoFailure(events[k + 1..m]) && (k + 1 < m ==> SuccessCount(events[k + 1..m - 1]) < cfg.halfOpenMaxRequests)
    ensures forall j | k < j < m && events[j].Check? :: Admits(Run(cfg, events[..j]), events[j].now)
    ensures forall j: nat | k < j < m :: !ProbeAt(cfg, events, j)
  {
    ProbeRuns(cfg, events, k, m);
  }

  /** Two probes are always separated by a failure. */
  lemma ProbesNeedFailures(cfg: Config, events: seq<Event>, j: nat, k: nat)
    requires Positive(cfg) && j < k && ProbeAt(cfg, events, j) && ProbeAt(cfg, events, k)
    ensures exists i :: j < i < k && events[i].Failure?
  {
    if forall i | j < i < k :: !events[i].Failure? {
      NotOpenWithoutFailure(cfg, events, j + 1, k);
    }
  }

  lemma {:induction false} NotOpenWithoutFailure(cfg: Config, events: seq<Event>, i: nat, k: nat)
    requires i <= k <= |events| && i > 0
    requires ProbeAt(cfg, events, i - 1)
    requires forall x | i <= x < k :: !events[x].Failure?
    ensures !Run(cfg, events[..k]).state.Open?
    decreases k
  {
    assert events[..k][..k - 1] == events[..k - 1];
    if i < k {
      NotOpenWithoutFailure(cfg, events, i, k - 1);
    }
  }

  /** Closed means below the threshold in every history if and only if the threshold is positive. */
  lemma ClosedIsBelowIff(cfg: Config)
    ensures
      (forall events :: Run(cfg, events).state.Closed? ==> TrailingFailures(events) < cfg.failureThreshold)
      <==> cfg.failureThreshold > 0
  {
    assert Run(cfg, []).state.Closed? && TrailingFailures([]) == 0;
    if cfg.failureThreshold > 0 {
      forall events
        ensures Run(cfg, events).state.Closed? ==> TrailingFailures(events) < cfg.failureThreshold
      {
        FailuresAreTrailing(cfg, events);
      }
    }
  }
}
