/**
 Many clients of the two-phase limiter.  Each script and each rollback decrement is
 one atomic step; the steps of different clients interleave freely and time passes
 between them.  Limits are fixed per prefix; there are no Redis errors.
 */
module RateLimit {
  import opened Wrappers
  import opened Redis
  import opened RateLimitScripts

  // Where a request is between its reservation and its end.
  datatype Phase =
    | Reserved    // requests and tokens are counted, the slot is not asked for yet
    | NoSlot      // the slot was refused, nothing is rolled back yet
    | RpmUndone   // the request is rolled back, its tokens are not
    | Denied
    | Admitted

  // `reservedAt` and `heldSince` are the times of its reservation and of its slot.
  datatype Client = Client(
    prefix: string, minute: int, estimate: int, phase: Phase, holding: bool, actual: Option<int>,
    reservedAt: int, heldSince: int)

  function Newcomer(p: string, m: int, est: int, now: int): Client {
    Client(p, m, est, Reserved, false, None, now, now)
  }

  // `adrift` collects the counters that no longer follow the clients: those that expired
  // with a count, and slot counters released by someone who held no slot.
  datatype State = State(db: Counters<Key>, clients: seq<Client>, now: int, adrift: set<Key>)

  datatype Step =
    | Tick(to: int)
    | Reserve(prefix: string, minute: int, estimate: int)
    | Acquire(i: nat)
    | UndoRpm(i: nat)
    | UndoTpm(i: nat)
    | Release(i: nat)
    | Settle(i: nat, tokens: int)
    | SurplusRelease(owner: string)

  const INIT := State(map[], [], 0, {})

  predicate Enabled(s: State, step: Step) {
    match step
    case Tick(to) => s.now <= to
    case Reserve(_, _, _) => true
    case SurplusRelease(_) => true
    case Acquire(i) => i < |s.clients| && s.clients[i].phase.Reserved?
    case UndoRpm(i) => i < |s.clients| && s.clients[i].phase.NoSlot?
    case UndoTpm(i) => i < |s.clients| && s.clients[i].phase.RpmUndone?
    case Release(i) => i < |s.clients| && s.clients[i].holding
    case Settle(i, _) => i < |s.clients| && s.clients[i].phase.Admitted? && s.clients[i].actual.None?
  }

  function Next(limits: string -> Limits, s: State, step: Step): State
    requires Enabled(s, step)
  {
    match step
    case Tick(to) =>
      s.(now := to, adrift := s.adrift + set k | k in s.db && !Live(s.db[k], to) && s.db[k].value != 0)
    case Reserve(p, m, est) =>
      var bounds := Bounds(p, m, limits(p), est);
      if !AllFit(s.db, bounds, s.now) then s
      else
        s.(db := IncrementAll(s.db, bounds, s.now),
           clients := s.clients + [Newcomer(p, m, est, s.now)])
    case Acquire(i) =>
      var c := s.clients[i];
      var (db, ok) := AcquireSlot(s.db, Conc(c.prefix), limits(c.prefix).concurrency, s.now);
      var c' := if ok then c.(phase := Admitted, holding := true, heldSince := s.now) else c.(phase := NoSlot);
      s.(db := db, clients := s.clients[i := c'])
    case UndoRpm(i) =>
      var c := s.clients[i];
      s.(db := IncrBy(s.db, Rpm(c.prefix, c.minute), -1, s.now), clients := s.clients[i := c.(phase := RpmUndone)])
    case UndoTpm(i) =>
      var c := s.clients[i];
      s.(db := IncrBy(s.db, Tpm(c.prefix, c.minute), -c.estimate, s.now),
         clients := s.clients[i := c.(phase := Denied)])
    case Release(i) =>
      var c := s.clients[i];
      s.(db := ReleaseSlot(s.db, Conc(c.prefix), s.now), clients := s.clients[i := c.(holding := false)])
    case Settle(i, tokens) =>
      var c := s.clients[i];
      var delta := tokens - c.estimate;
      s.(db := if delta == 0 then s.db else IncrBy(s.db, Tpm(c.prefix, c.minute), delta, s.now),
         clients := s.clients[i := c.(actual := Some(tokens))])
    case SurplusRelease(p) =>
      s.(db := ReleaseSlot(s.db, Conc(p), s.now), adrift := s.adrift + {Conc(p)})
  }

  // The state after any sequence of steps; a step that is not enabled does nothing.
  function Run(limits: string -> Limits, steps: seq<Step>): State {
    if steps == [] then INIT
    else
      var s, step := Run(limits, steps[..|steps| - 1]), steps[|steps| - 1];
      if Enabled(s, step) then Next(limits, s, step) else s
  }

  // ---------- The pre-request check as steps ----------

  function Do(limits: string -> Limits, s: State, step: Step): State {
    if Enabled(s, step) then Next(limits, s, step) else s
  }

  // The steps of one check with nothing between them; those not called for do nothing.
  function CheckAlone(limits: string -> Limits, s: State, p: string, m: int, est: int): State {
    var i := |s.clients|;
    var asked := Do(limits, Do(limits, s, Reserve(p, m, est)), Acquire(i));
    Do(limits, Do(limits, asked, UndoRpm(i)), UndoTpm(i))
  }

  lemma AcquireEnds(limits: string -> Limits, s: State, i: nat)
    requires |s.clients| == i + 1 && s.clients[i].phase.Reserved?
    ensures
      var c := s.clients[i];
      var slot := Count(s.db, Conc(c.prefix), s.now) < limits(c.prefix).concurrency;
      var s' := Do(limits, Do(limits, Do(limits, s, Acquire(i)), UndoRpm(i)), UndoTpm(i));
      && |s'.clients| == i + 1 && s'.clients[i].phase == (if slot then Admitted else Denied)
      && s'.clients[i].holding == (slot || c.holding)
      && SlotEffect(s.db, s'.db, c.prefix, c.minute, c.estimate, s.now, None, s.now, slot)
  {
  }

  /** Undisturbed, the steps of a check have the effect and the verdict of `CheckPreRequest`. */
  lemma CheckIsFourSteps(limits: string -> Limits, s: State, p: string, m: int, est: int)
    ensures
      var i, s' := |s.clients|, CheckAlone(limits, s, p, m, est);
      var booked := IncrementAll(s.db, Bounds(p, m, limits(p), est), s.now);
      var slot := Count(booked, Conc(p), s.now) < limits(p).concurrency;
      if !AllFit(s.db, Bounds(p, m, limits(p), est), s.now) then s' == s
      else
        && |s'.clients| == i + 1 && s'.clients[i].phase == (if slot then Admitted else Denied)
        && s'.clients[i].holding == slot
        && SlotEffect(booked, s'.db, p, m, est, s.now, None, s.now, slot)
  {
    if AllFit(s.db, Bounds(p, m, limits(p), est), s.now) {
      AcquireEnds(limits, Next(limits, s, Reserve(p, m, est)), |s.clients|);
    }
  }

  // ---------- What the clients account for ----------

  // The part of counter `k` that belongs to one client.
  function Share(k: Key, c: Client): int {
    match k
    case Conc(p) => if c.prefix == p && c.holding then 1 else 0
    case Rpm(p, m) =>
      if c.prefix == p && c.minute == m && (c.phase.Reserved? || c.phase.NoSlot? || c.phase.Admitted?) then 1 else 0
    case Tpm(p, m) =>
      if c.prefix == p && c.minute == m && !c.phase.Denied? then
        if c.actual.Some? then c.actual.value else c.estimate
      else 0
  }

  function Total(k: Key, cs: seq<Client>): int {
    if cs == [] then 0 else Total(k, cs[..|cs| - 1]) + Share(k, cs[|cs| - 1])
  }

  lemma {:induction false} TotalUpdate(k: Key, cs: seq<Client>, i: nat, c: Client)
    requires i < |cs|
    ensures Total(k, cs[i := c]) == Total(k, cs) - Share(k, cs[i]) + Share(k, c)
  {
    var last := |cs| - 1;
    if i == last {
      assert cs[i := c][..last] == cs[..last];
    } else {
      assert cs[i := c][..last] == cs[..last][i := c];
      TotalUpdate(k, cs[..last], i, c);
    }
  }

  // ---------- The invariant ----------

  ghost predicate Follows(s: State) {
    forall k {:trigger Total(k, s.clients)} :: k !in s.adrift ==> Count(s.db, k, s.now) == Total(k, s.clients)
  }

  ghost predicate WithinLimits(limits: string -> Limits, s: State) {
    && (forall p, m :: Count(s.db, Rpm(p, m), s.now) <= Max(limits(p).rpm, 0))
    && (forall p :: 0 <= Count(s.db, Conc(p), s.now) <= Max(limits(p).concurrency, 0))
  }

  // Slots are held by admitted requests only, and only these have settled tokens.
  ghost predicate Proper(cs: seq<Client>) {
    forall i | 0 <= i < |cs| && !cs[i].phase.Admitted? :: !cs[i].holding && cs[i].actual.None?
  }

  ghost predicate Inv(limits: string -> Limits, s: State) {
    Follows(s) && WithinLimits(limits, s) && Proper(s.clients)
  }

  lemma TickKeepsInv(limits: string -> Limits, s: State, to: int)
    requires Inv(limits, s) && s.now <= to
    ensures Inv(limits, Next(limits, s, Tick(to)))
  {
  }

  lemma ReserveKeepsInv(limits: string -> Limits, s: State, p: string, m: int, est: int)
    requires Inv(limits, s)
    ensures Inv(limits, Next(limits, s, Reserve(p, m, est)))
  {
    var s' := Next(limits, s, Reserve(p, m, est));
    var bounds := Bounds(p, m, limits(p), est);
    if AllFit(s.db, bounds, s.now) {
      ReservedCounts(s.db, p, m, limits(p), est, s.now);
      assert Fits(s.db, bounds[0], s.now);
      assert s'.clients[..|s.clients|] == s.clients;
      forall k | k !in s'.adrift
        ensures Count(s'.db, k, s.now) == Total(k, s'.clients)
      {
        assert Count(s.db, k, s.now) == Total(k, s.clients);
      }
    }
  }

  // A step that moves one client along and changes the counters by the change of its shares.
  lemma ClientStep(s: State, s': State, i: nat)
    requires Follows(s) && i < |s.clients| && s'.now == s.now && s.adrift <= s'.adrift
    requires |s'.clients| == |s.clients| && s'.clients == s.clients[i := s'.clients[i]]
    requires forall k {:trigger Share(k, s'.clients[i])} :: k !in s'.adrift ==>
               Count(s'.db, k, s.now) == Count(s.db, k, s.now) - Share(k, s.clients[i]) + Share(k, s'.clients[i])
    ensures Follows(s')
  {
    forall k | k !in s'.adrift
      ensures Count(s'.db, k, s.now) == Total(k, s'.clients)
    {
      TotalUpdate(k, s.clients, i, s'.clients[i]);
      assert Count(s.db, k, s.now) == Total(k, s.clients);
      assert Count(s'.db, k, s.now) == Count(s.db, k, s.now) - Share(k, s.clients[i]) + Share(k, s'.clients[i]);
    }
  }

  // A slot held is a slot counted, unless the counter is adrift.
  lemma {:induction false} HolderCounts(k: Key, cs: seq<Client>, i: nat)
    requires k.Conc? && i < |cs|
    ensures Total(k, cs) >= Share(k, cs[i])
    decreases |cs|
  {
    TotalNonnegative(k, cs[..|cs| - 1]);
    if i < |cs| - 1 {
      HolderCounts(k, cs[..|cs| - 1], i);
    }
  }

  lemma {:induction false} TotalNonnegative(k: Key, cs: seq<Client>)
    requires !k.Tpm?
    ensures Total(k, cs) >= 0
  {
    if cs != [] {
      TotalNonnegative(k, cs[..|cs| - 1]);
    }
  }

  lemma AcquireKeepsInv(limits: string -> Limits, s: State, i: nat)
    requires Inv(limits, s) && Enabled(s, Acquire(i))
    ensures Inv(limits, Next(limits, s, Acquire(i)))
  {
    ClientStep(s, Next(limits, s, Acquire(i)), i);
  }

  lemma UndoKeepsInv(limits: string -> Limits, s: State, step: Step)
    requires Inv(limits, s) && Enabled(s, step) && (step.UndoRpm? || step.UndoTpm?)
    ensures Inv(limits, Next(limits, s, step))
  {
    ClientStep(s, Next(limits, s, step), step.i);
  }

  lemma SettleKeepsInv(limits: string -> Limits, s: State, step: Step)
    requires Inv(limits, s) && Enabled(s, step) && step.Settle?
    ensures Inv(limits, Next(limits, s, step))
  {
    ClientStep(s, Next(limits, s, step), step.i);
  }

  lemma ReleaseKeepsInv(limits: string -> Limits, s: State, i: nat)
    requires Inv(limits, s) && Enabled(s, Release(i))
    ensures Inv(limits, Next(limits, s, Release(i)))
  {
    var conc := Conc(s.clients[i].prefix);
    if conc !in s.adrift {
      HolderCounts(conc, s.clients, i);
      assert Count(s.db, conc, s.now) == Total(conc, s.clients);
    }
    ClientStep(s, Next(limits, s, Release(i)), i);
  }

  lemma SurplusKeepsInv(limits: string -> Limits, s: State, p: string)
    requires Inv(limits, s)
    ensures Inv(limits, Next(limits, s, SurplusRelease(p)))
  {
  }

  lemma StepKeepsInv(limits: string -> Limits, s: State, step: Step)
    requires Inv(limits, s) && Enabled(s, step)
    ensures Inv(limits, Next(limits, s, step))
  {
    match step
    case Tick(to) => TickKeepsInv(limits, s, to);
    case Reserve(p, m, est) => ReserveKeepsInv(limits, s, p, m, est);
    case Acquire(i) => AcquireKeepsInv(limits, s, i);
    case Release(i) => ReleaseKeepsInv(limits, s, i);
    case SurplusRelease(p) => SurplusKeepsInv(limits, s, p);
    case Settle(_, _) => SettleKeepsInv(limits, s, step);
    case _ => UndoKeepsInv(limits, s, step);
  }

  lemma {:induction false} RunKeepsInv(limits: string -> Limits, steps: seq<Step>)
    ensures Inv(limits, Run(limits, steps))
  {
    if steps != [] {
      var s, step := Run(limits, steps[..|steps| - 1]), steps[|steps| - 1];
      RunKeepsInv(limits, steps[..|steps| - 1]);
      if Enabled(s, step) {
        StepKeepsInv(limits, s, step);
      }
    }
  }

  // ---------- The guarantees ----------

  // The requests of a prefix and minute in a given phase.
  ghost function InPhase(cs: seq<Client>, p: string, m: int, admitted: bool): nat {
    if cs == [] then 0
    else
      var c := cs[|cs| - 1];
      var here := c.prefix == p && c.minute == m &&
        if admitted then c.phase.Admitted? else c.phase.Reserved? || c.phase.NoSlot?;
      InPhase(cs[..|cs| - 1], p, m, admitted) + if here then 1 else 0
  }

  lemma {:induction false} RpmTotal(cs: seq<Client>, p: string, m: int)
    ensures Total(Rpm(p, m), cs) == InPhase(cs, p, m, true) + InPhase(cs, p, m, false)
  {
    if cs != [] {
      RpmTotal(cs[..|cs| - 1], p, m);
    }
  }

  /**
   In every interleaving the request counter of a minute is the number of admitted
   requests plus those between reservation and verdict or rollback, and is within
   the limit, as long as the counter has not expired with a count.
   */
  lemma RpmIsExact(limits: string -> Limits, steps: seq<Step>, p: string, m: int)
    ensures
      var s := Run(limits, steps);
      && Count(s.db, Rpm(p, m), s.now) <= Max(limits(p).rpm, 0)
      && (Rpm(p, m) !in s.adrift ==>
            Count(s.db, Rpm(p, m), s.now) == InPhase(s.clients, p, m, true) + InPhase(s.clients, p, m, false))
  {
    RunKeepsInv(limits, steps);
    var s := Run(limits, steps);
    RpmTotal(s.clients, p, m);
    assert Rpm(p, m) !in s.adrift ==> Count(s.db, Rpm(p, m), s.now) == Total(Rpm(p, m), s.clients);
  }

  // Estimates of the requests whose tokens are neither settled nor rolled back.
  ghost function OpenEstimates(cs: seq<Client>, p: string, m: int): int {
    if cs == [] then 0
    else
      var c := cs[|cs| - 1];
      var here := c.prefix == p && c.minute == m && c.actual.None? && !c.phase.Denied?;
      OpenEstimates(cs[..|cs| - 1], p, m) + if here then c.estimate else 0
  }

  // Actual tokens of the settled requests.
  ghost function SettledTokens(cs: seq<Client>, p: string, m: int): int {
    if cs == [] then 0
    else
      var c := cs[|cs| - 1];
      SettledTokens(cs[..|cs| - 1], p, m)
      + if c.prefix == p && c.minute == m && c.actual.Some? then c.actual.value else 0
  }

  lemma {:induction false} TpmTotal(cs: seq<Client>, p: string, m: int)
    requires Proper(cs)
    ensures Total(Tpm(p, m), cs) == OpenEstimates(cs, p, m) + SettledTokens(cs, p, m)
  {
    if cs != [] {
      assert forall i | 0 <= i < |cs| - 1 :: cs[..|cs| - 1][i] == cs[i];
      TpmTotal(cs[..|cs| - 1], p, m);
    }
  }

  /**
   The token counter is the estimates of pending and unsettled requests plus the
   actual tokens of the settled ones.
   */
  lemma TpmIsExact(limits: string -> Limits, steps: seq<Step>, p: string, m: int)
    ensures
      var s := Run(limits, steps);
      Tpm(p, m) !in s.adrift ==>
        Count(s.db, Tpm(p, m), s.now) == OpenEstimates(s.clients, p, m) + SettledTokens(s.clients, p, m)
  {
    RunKeepsInv(limits, steps);
    var s := Run(limits, steps);
    TpmTotal(s.clients, p, m);
    assert Tpm(p, m) !in s.adrift ==> Count(s.db, Tpm(p, m), s.now) == Total(Tpm(p, m), s.clients);
  }

  // The requests holding a slot of the prefix.
  ghost function Holders(cs: seq<Client>, p: string): nat {
    if cs == [] then 0
    else
      var c := cs[|cs| - 1];
      Holders(cs[..|cs| - 1], p) + if c.prefix == p && c.holding then 1 else 0
  }

  lemma {:induction false} SlotTotal(cs: seq<Client>, p: string)
    ensures Total(Conc(p), cs) == Holders(cs, p)
  {
    if cs != [] {
      SlotTotal(cs[..|cs| - 1], p);
    }
  }

  /**
   The slot counter is between 0 and the limit in every run; without surplus releases
   and expiry under held slots it is the number of holders.
   */
  lemma SlotsAreBounded(limits: string -> Limits, steps: seq<Step>, p: string)
    ensures
      var s := Run(limits, steps);
      && 0 <= Count(s.db, Conc(p), s.now) <= Max(limits(p).concurrency, 0)
      && (Conc(p) !in s.adrift ==>
            Count(s.db, Conc(p), s.now) == Holders(s.clients, p) <= Max(limits(p).concurrency, 0))
  {
    RunKeepsInv(limits, steps);
    var s := Run(limits, steps);
    SlotTotal(s.clients, p);
    assert Conc(p) !in s.adrift ==> Count(s.db, Conc(p), s.now) == Total(Conc(p), s.clients);
  }

  lemma Extend(limits: string -> Limits, steps: seq<Step>, step: Step)
    requires Enabled(Run(limits, steps), step)
    ensures Run(limits, steps + [step]) == Next(limits, Run(limits, steps), step)
  {
    assert (steps + [step])[..|steps|] == steps;
  }

  // ---------- Expiry and the minute ----------

  // A reservation for a minute runs after the minute has begun and within `delay` of that.
  predicate OnTime(s: State, step: Step, delay: int) {
    step.Reserve? ==> 60 * step.minute <= s.now < 60 * step.minute + delay
  }

  ghost predicate Timely(limits: string -> Limits, steps: seq<Step>, delay: int) {
    forall i | 0 <= i < |steps| :: OnTime(Run(limits, steps[..i]), steps[i], delay)
  }

  lemma TimelyExtend(limits: string -> Limits, steps: seq<Step>, step: Step, delay: int)
    ensures Timely(limits, steps + [step], delay) <==>
            Timely(limits, steps, delay) && OnTime(Run(limits, steps), step, delay)
  {
    var all := steps + [step];
    assert all[..|steps|] == steps && all[|steps|] == step;
    assert forall i | 0 <= i < |steps| :: all[..i] == steps[..i] && all[i] == steps[i];
  }

  // A counter of minute m outlives the minute.
  predicate Lasting(k: Key, s: State) {
    k.Conc? ||
    (&& (k in s.db && s.db[k].deadline.Some? ==> s.db[k].deadline.value >= 60 * k.minute + KEY_TTL)
     && (k in s.adrift ==> s.now >= 60 * k.minute + KEY_TTL))
  }

  ghost predicate Outlives(limits: string -> Limits, s: State) {
    && (forall k :: Lasting(k, s))
    && (forall p, m :: Total(Rpm(p, m), s.clients) <= Max(limits(p).rpm, 0))
  }

  lemma TotalOfOthers(limits: string -> Limits, s: State, step: Step, p: string, m: int)
    requires Enabled(s, step) && !step.Reserve?
    ensures Total(Rpm(p, m), Next(limits, s, step).clients) <= Total(Rpm(p, m), s.clients)
  {
    if !step.Tick? && !step.SurplusRelease? {
      TotalUpdate(Rpm(p, m), s.clients, step.i, Next(limits, s, step).clients[step.i]);
    }
  }

  // The deadlines a reservation leaves behind.
  lemma ReserveDeadlines(db: Counters<Key>, prefix: string, minute: int, limits: Limits, tokens: int, now: int, k: Key)
    ensures
      var db' := IncrementAll(db, Bounds(prefix, minute, limits, tokens), now);
      if k == Rpm(prefix, minute) || k == Tpm(prefix, minute) then k in db' && db'[k].deadline == Some(now + KEY_TTL)
      else (k in db' <==> k in db) && (k in db ==> db'[k] == db[k])
  {
    var bounds := Bounds(prefix, minute, limits, tokens);
    assert bounds[..1] == [bounds[0]] && bounds[..1][..0] == [];
    assert IncrementAll(db, bounds[..1], now) == Increment(db, bounds[0], now);
  }

  lemma ReserveKeepsOutlives(limits: string -> Limits, s: State, p: string, minute: int, est: int)
    requires Inv(limits, s) && Outlives(limits, s) && 60 * minute <= s.now < 60 * minute + KEY_TTL
    ensures Outlives(limits, Next(limits, s, Reserve(p, minute, est)))
  {
    var s' := Next(limits, s, Reserve(p, minute, est));
    ReserveKeepsInv(limits, s, p, minute, est);
    if AllFit(s.db, Bounds(p, minute, limits(p), est), s.now) {
      assert s'.clients[..|s.clients|] == s.clients;
      forall k
        ensures Lasting(k, s')
      {
        ReserveDeadlines(s.db, p, minute, limits(p), est, s.now, k);
        assert Lasting(k, s);
      }
      forall q, m
        ensures Total(Rpm(q, m), s'.clients) <= Max(limits(q).rpm, 0)
      {
        assert Total(Rpm(q, m), s.clients) <= Max(limits(q).rpm, 0);
        if q == p && m == minute {
          assert Lasting(Rpm(q, m), s);
          assert Count(s'.db, Rpm(q, m), s.now) == Total(Rpm(q, m), s'.clients);
        }
      }
    }
  }

  lemma StepKeepsLasting(limits: string -> Limits, s: State, step: Step, k: Key)
    requires Enabled(s, step) && !step.Reserve? && Lasting(k, s)
    ensures Lasting(k, Next(limits, s, step))
  {
  }

  lemma StepKeepsOutlives(limits: string -> Limits, s: State, step: Step)
    requires Inv(limits, s) && Outlives(limits, s) && Enabled(s, step) && OnTime(s, step, KEY_TTL)
    ensures Outlives(limits, Next(limits, s, step))
  {
    var s' := Next(limits, s, step);
    if step.Reserve? {
      ReserveKeepsOutlives(limits, s, step.prefix, step.minute, step.estimate);
    } else {
      forall k
        ensures Lasting(k, s')
      {
        StepKeepsLasting(limits, s, step, k);
      }
      forall p, m
        ensures Total(Rpm(p, m), s'.clients) <= Max(limits(p).rpm, 0)
      {
        TotalOfOthers(limits, s, step, p, m);
        assert Total(Rpm(p, m), s.clients) <= Max(limits(p).rpm, 0);
      }
    }
  }

  lemma {:induction false} TimelyOutlives(limits: string -> Limits, steps: seq<Step>)
    requires Timely(limits, steps, KEY_TTL)
    ensures Outlives(limits, Run(limits, steps))
  {
    if steps != [] {
      var init := steps[..|steps| - 1];
      var s, step := Run(limits, init), steps[|steps| - 1];
      assert init + [step] == steps;
      TimelyExtend(limits, init, step, KEY_TTL);
      TimelyOutlives(limits, init);
      RunKeepsInv(limits, init);
      if Enabled(s, step) {
        StepKeepsOutlives(limits, s, step);
      }
    }
  }

  /**
   When every reservation runs within 120 seconds of the start of its minute, the requests
   admitted for a minute never exceed the limit, however long the run goes on and
   whatever expires.
   */
  lemma AdmittedPerMinute(limits: string -> Limits, steps: seq<Step>, p: string, m: int)
    requires Timely(limits, steps, 120)
    ensures InPhase(Run(limits, steps).clients, p, m, true) <= Max(limits(p).rpm, 0)
  {
    TimelyOutlives(limits, steps);
    var s := Run(limits, steps);
    RpmTotal(s.clients, p, m);
    assert Total(Rpm(p, m), s.clients) <= Max(limits(p).rpm, 0);
  }

  // Reservations are made for the minute of a clock reading at most 60 seconds before.
  ghost predicate ReadMinute(s: State, step: Step) {
    step.Reserve? ==>
      exists nanos: int | nanos >= 0 ::
        step.minute == MinuteOf(nanos) && nanos / 1_000_000_000 <= s.now <= nanos / 1_000_000_000 + 60
  }

  lemma ReadMinuteIsOnTime(s: State, step: Step)
    requires ReadMinute(s, step)
    ensures OnTime(s, step, 120)
  {
    if step.Reserve? {
      var nanos: int :| nanos >= 0 && step.minute == MinuteOf(nanos)
                        && nanos / 1_000_000_000 <= s.now <= nanos / 1_000_000_000 + 60;
      MinuteContains(nanos);
    }
  }

  /**
   When every reservation runs at most 60 seconds after its caller read the clock, the requests
   admitted for a minute never exceed the limit.
   */
  lemma AdmittedWhenPrompt(limits: string -> Limits, steps: seq<Step>, p: string, m: int)
    requires forall i | 0 <= i < |steps| :: ReadMinute(Run(limits, steps[..i]), steps[i])
    ensures InPhase(Run(limits, steps).clients, p, m, true) <= Max(limits(p).rpm, 0)
  {
    forall i | 0 <= i < |steps|
      ensures OnTime(Run(limits, steps[..i]), steps[i], 120)
    {
      ReadMinuteIsOnTime(Run(limits, steps[..i]), steps[i]);
    }
    AdmittedPerMinute(limits, steps, p, m);
  }

  /** In such runs both counters of a minute are exact until 60 seconds after its end. */
  lemma CountersAreExactInTime(limits: string -> Limits, steps: seq<Step>, p: string, m: int)
    requires Timely(limits, steps, 120) && Run(limits, steps).now < 60 * (m + 1) + 60
    ensures
      var s := Run(limits, steps);
      && Count(s.db, Rpm(p, m), s.now) == InPhase(s.clients, p, m, true) + InPhase(s.clients, p, m, false)
      && Count(s.db, Tpm(p, m), s.now) == OpenEstimates(s.clients, p, m) + SettledTokens(s.clients, p, m)
  {
    TimelyOutlives(limits, steps);
    assert Lasting(Rpm(p, m), Run(limits, steps)) && Lasting(Tpm(p, m), Run(limits, steps));
    RpmIsExact(limits, steps, p, m);
    TpmIsExact(limits, steps, p, m);
  }

  // ---------- The delay is the largest one ----------

  // The state after a reservation that fits.
  ghost predicate Booked(s: State, s': State, p: string, m: int, est: int) {
    && s'.now == s.now && s'.adrift == s.adrift
    && s'.clients == s.clients + [Newcomer(p, m, est, s.now)]
    && (forall k :: Count(s'.db, k, s.now) ==
          Count(s.db, k, s.now) + if k == Rpm(p, m) then 1 else if k == Tpm(p, m) then est else 0)
    && Expires(s', Rpm(p, m)) && Expires(s', Tpm(p, m))
  }

  // The key is to expire after the full time to live.
  predicate Expires(s: State, k: Key) {
    k in s.db && s.db[k].deadline == Some(s.now + KEY_TTL)
  }

  // The reservation would be made.
  predicate HasRoom(limits: Limits, s: State, p: string, m: int, est: int) {
    && Count(s.db, Rpm(p, m), s.now) + 1 <= limits.rpm
    && Count(s.db, Tpm(p, m), s.now) + est <= limits.tpm
  }

  lemma ReserveBooks(limits: string -> Limits, s: State, p: string, m: int, est: int)
    requires HasRoom(limits(p), s, p, m, est)
    ensures Booked(s, Next(limits, s, Reserve(p, m, est)), p, m, est)
  {
    var bounds := Bounds(p, m, limits(p), est);
    assert Fits(s.db, bounds[0], s.now) && Fits(s.db, bounds[1], s.now);
    ReservedCounts(s.db, p, m, limits(p), est, s.now);
    ReserveDeadlines(s.db, p, m, limits(p), est, s.now, Rpm(p, m));
    ReserveDeadlines(s.db, p, m, limits(p), est, s.now, Tpm(p, m));
  }

  lemma ReserveThatFits(limits: string -> Limits, steps: seq<Step>, p: string, m: int, est: int)
    requires HasRoom(limits(p), Run(limits, steps), p, m, est)
    ensures Booked(Run(limits, steps), Run(limits, steps + [Reserve(p, m, est)]), p, m, est)
  {
    Extend(limits, steps, Reserve(p, m, est));
    ReserveBooks(limits, Run(limits, steps), p, m, est);
  }

  // The state after the slot of request `i` is taken, and maybe given back.
  ghost predicate Slotted(s: State, s': State, i: nat, held: int)
    requires i < |s.clients|
  {
    var c := s.clients[i];
    && s'.now == s.now && s'.adrift == s.adrift
    && s'.clients == s.clients[i := c.(phase := Admitted, holding := held == 1, heldSince := s.now)]
    && (forall k :: Count(s'.db, k, s.now) == Count(s.db, k, s.now) + if k == Conc(c.prefix) then held else 0)
    && Expires(s', Conc(c.prefix))
    && (forall k | Expires(s, k) :: Expires(s', k))
  }

  lemma AcquireTakes(limits: string -> Limits, s: State, i: nat)
    requires i < |s.clients| && s.clients[i].phase.Reserved?
    requires Count(s.db, Conc(s.clients[i].prefix), s.now) < limits(s.clients[i].prefix).concurrency
    ensures Slotted(s, Next(limits, s, Acquire(i)), i, 1)
  {
  }

  lemma AcquireFree(limits: string -> Limits, steps: seq<Step>, i: nat)
    requires
      var s := Run(limits, steps);
      && i < |s.clients| && s.clients[i].phase.Reserved?
      && Count(s.db, Conc(s.clients[i].prefix), s.now) < limits(s.clients[i].prefix).concurrency
    ensures Slotted(Run(limits, steps), Run(limits, steps + [Acquire(i)]), i, 1)
  {
    Extend(limits, steps, Acquire(i));
    AcquireTakes(limits, Run(limits, steps), i);
  }

  lemma ReleaseUndoes(limits: string -> Limits, s: State, s': State, i: nat)
    requires i < |s.clients| && Slotted(s, s', i, 1) && Count(s.db, Conc(s.clients[i].prefix), s.now) >= 0
    ensures Enabled(s', Release(i)) && Slotted(s, Next(limits, s', Release(i)), i, 0)
  {
  }

  lemma AcquireAndRelease(limits: string -> Limits, steps: seq<Step>, i: nat)
    requires
      var s := Run(limits, steps);
      && i < |s.clients| && s.clients[i].phase.Reserved?
      && 0 <= Count(s.db, Conc(s.clients[i].prefix), s.now) < limits(s.clients[i].prefix).concurrency
    ensures Slotted(Run(limits, steps), Run(limits, steps + [Acquire(i)] + [Release(i)]), i, 0)
  {
    AcquireFree(limits, steps, i);
    ReleaseUndoes(limits, Run(limits, steps), Run(limits, steps + [Acquire(i)]), i);
    Extend(limits, steps + [Acquire(i)], Release(i));
  }

  // Limits that let a request without tokens through, with a slot to spare.
  predicate Room(limits: Limits, s: State, p: string, m: int) {
    HasRoom(limits, s, p, m, 0) && 0 <= Count(s.db, Conc(p), s.now) < limits.concurrency
  }

  // A request without tokens that is admitted and gives its slot back.
  function Visit(steps: seq<Step>, p: string, m: int, i: nat): seq<Step> {
    steps + [Reserve(p, m, 0)] + [Acquire(i)] + [Release(i)]
  }

  function Visitor(p: string, m: int, now: int): Client {
    Newcomer(p, m, 0, now).(phase := Admitted)
  }

  // The state after such a visit.
  ghost predicate Visited(s: State, s': State, p: string, m: int) {
    && s'.now == s.now && s'.clients == s.clients + [Visitor(p, m, s.now)]
    && (forall k :: Count(s'.db, k, s.now) == Count(s.db, k, s.now) + if k == Rpm(p, m) then 1 else 0)
    && Expires(s', Rpm(p, m)) && Expires(s', Tpm(p, m)) && Expires(s', Conc(p))
  }

  lemma VisitRuns(limits: string -> Limits, steps: seq<Step>, p: string, m: int)
    requires Room(limits(p), Run(limits, steps), p, m)
    ensures Visited(Run(limits, steps), Run(limits, Visit(steps, p, m, |Run(limits, steps).clients|)), p, m)
  {
    ReserveThatFits(limits, steps, p, m, 0);
    AcquireAndRelease(limits, steps + [Reserve(p, m, 0)], |Run(limits, steps).clients|);
  }

  lemma VisitTimely(limits: string -> Limits, steps: seq<Step>, p: string, m: int, i: nat, delay: int)
    requires Timely(limits, steps, delay) && OnTime(Run(limits, steps), Reserve(p, m, 0), delay)
    ensures Timely(limits, Visit(steps, p, m, i), delay)
  {
    TimelyExtend(limits, steps, Reserve(p, m, 0), delay);
    TimelyExtend(limits, steps + [Reserve(p, m, 0)], Acquire(i), delay);
    TimelyExtend(limits, steps + [Reserve(p, m, 0)] + [Acquire(i)], Release(i), delay);
  }

  // n visits at the start of minute m.
  function Visits(p: string, m: nat, n: nat): seq<Step> {
    if n == 0 then [] + [Tick(60 * m)] else Visit(Visits(p, m, n - 1), p, m, n - 1)
  }

  lemma AdmittedByVisit(cs: seq<Client>, p: string, m: int, now: int)
    ensures InPhase(cs + [Visitor(p, m, now)], p, m, true) == InPhase(cs, p, m, true) + 1
  {
    assert (cs + [Visitor(p, m, now)])[..|cs|] == cs;
  }

  // The state after n visits: their count, and counters that end with the 120 seconds.
  ghost predicate AfterVisits(s: State, p: string, m: nat, n: nat) {
    && s.now == 60 * m && |s.clients| == n && InPhase(s.clients, p, m, true) == n
    && Count(s.db, Rpm(p, m), s.now) == n && Count(s.db, Tpm(p, m), s.now) == 0 && Count(s.db, Conc(p), s.now) == 0
    && (forall k | k in {Rpm(p, m), Tpm(p, m), Conc(p)} && k in s.db :: Expires(s, k))
  }

  lemma OneMoreVisit(s: State, s': State, p: string, m: nat, n: nat)
    requires AfterVisits(s, p, m, n) && Visited(s, s', p, m)
    ensures AfterVisits(s', p, m, n + 1)
  {
    AdmittedByVisit(s.clients, p, m, s.now);
  }

  lemma {:induction false} VisitsRun(limits: string -> Limits, p: string, m: nat, n: nat)
    requires n <= limits(p).rpm && limits(p).tpm >= 0 && limits(p).concurrency >= 1
    ensures AfterVisits(Run(limits, Visits(p, m, n)), p, m, n)
  {
    if n == 0 {
      Extend(limits, [], Tick(60 * m));
    } else {
      VisitsRun(limits, p, m, n - 1);
      VisitRuns(limits, Visits(p, m, n - 1), p, m);
      OneMoreVisit(Run(limits, Visits(p, m, n - 1)), Run(limits, Visits(p, m, n)), p, m, n - 1);
    }
  }

  lemma {:induction false} VisitsTimely(limits: string -> Limits, p: string, m: nat, n: nat, delay: int)
    requires n <= limits(p).rpm && limits(p).tpm >= 0 && limits(p).concurrency >= 1 && delay > 0
    ensures Timely(limits, Visits(p, m, n), delay)
  {
    if n == 0 {
      TimelyExtend(limits, [], Tick(60 * m), delay);
    } else {
      VisitsTimely(limits, p, m, n - 1, delay);
      VisitsRun(limits, p, m, n - 1);
      VisitTimely(limits, Visits(p, m, n - 1), p, m, n - 1, delay);
    }
  }

  // All the requests of a minute, and one more when their counters have expired.
  function LateVisit(p: string, m: nat, rpm: nat): seq<Step> {
    Visit(Visits(p, m, rpm) + [Tick(60 * m + KEY_TTL)], p, m, rpm)
  }

  /** A reservation exactly 120 seconds after the start of its minute can be one too many, whatever the limits. */
  lemma LateReservationOvershoots(limits: string -> Limits, p: string, m: nat, delay: int)
    requires limits(p).rpm >= 1 && limits(p).tpm >= 0 && limits(p).concurrency >= 1 && delay > 120
    ensures Timely(limits, LateVisit(p, m, limits(p).rpm), delay)
    ensures InPhase(Run(limits, LateVisit(p, m, limits(p).rpm)).clients, p, m, true) == limits(p).rpm + 1
  {
    var rpm := limits(p).rpm;
    var steps := Visits(p, m, rpm);
    VisitsRun(limits, p, m, rpm);
    VisitsTimely(limits, p, m, rpm, delay);
    Extend(limits, steps, Tick(60 * m + KEY_TTL));
    TimelyExtend(limits, steps, Tick(60 * m + KEY_TTL), delay);
    VisitRuns(limits, steps + [Tick(60 * m + KEY_TTL)], p, m);
    VisitTimely(limits, steps + [Tick(60 * m + KEY_TTL)], p, m, rpm, delay);
    AdmittedByVisit(Run(limits, steps).clients, p, m, 60 * m + KEY_TTL);
  }

  // No run with reservations within `delay` admits more than the limit for a minute.
  ghost predicate MinuteIsSafe(limits: string -> Limits, p: string, delay: int) {
    forall steps, m | Timely(limits, steps, delay) ::
      InPhase(Run(limits, steps).clients, p, m, true) <= Max(limits(p).rpm, 0)
  }

  lemma TimelyMonotone(limits: string -> Limits, steps: seq<Step>, a: int, b: int)
    requires Timely(limits, steps, a) && a <= b
    ensures Timely(limits, steps, b)
  {
    forall i | 0 <= i < |steps|
      ensures OnTime(Run(limits, steps[..i]), steps[i], b)
    {
      assert OnTime(Run(limits, steps[..i]), steps[i], a);
    }
  }

  /**
   The limit per minute holds in every run exactly when reservations run within 120 seconds
   of the start of their minute.
   */
  lemma MinuteIsSafeIff(limits: string -> Limits, p: string, delay: int)
    requires limits(p).rpm >= 1 && limits(p).tpm >= 0 && limits(p).concurrency >= 1
    ensures MinuteIsSafe(limits, p, delay) <==> delay <= 120
  {
    if delay <= 120 {
      forall steps, m | Timely(limits, steps, delay)
        ensures InPhase(Run(limits, steps).clients, p, m, true) <= Max(limits(p).rpm, 0)
      {
        TimelyMonotone(limits, steps, delay, 120);
        AdmittedPerMinute(limits, steps, p, m);
      }
    } else {
      LateReservationOvershoots(limits, p, 0, delay);
    }
  }

  // ---------- Tokens after a correction ----------

  // Whether a request with this estimate may settle for this many tokens.
  type Rule = (int, int) -> bool

  // Estimates are not negative, and settlements obey the rule.
  predicate Lawful(rule: Rule, s: State, step: Step) {
    && (step.Reserve? ==> step.estimate >= 0)
    && (step.Settle? && Enabled(s, step) ==> rule(s.clients[step.i].estimate, step.tokens))
  }

  ghost predicate Obeys(rule: Rule, limits: string -> Limits, steps: seq<Step>) {
    forall i | 0 <= i < |steps| :: Lawful(rule, Run(limits, steps[..i]), steps[i])
  }

  lemma ObeysExtend(rule: Rule, limits: string -> Limits, steps: seq<Step>, step: Step)
    ensures Obeys(rule, limits, steps + [step]) <==>
            Obeys(rule, limits, steps) && Lawful(rule, Run(limits, steps), step)
  {
    var all := steps + [step];
    assert all[..|steps|] == steps && all[|steps|] == step;
    assert forall i | 0 <= i < |steps| :: all[..i] == steps[..i] && all[i] == steps[i];
  }

  // No response uses more than its estimate.
  ghost predicate Frugal(rule: Rule) {
    forall est, actual | 0 <= est && rule(est, actual) :: actual <= est
  }

  ghost predicate TokensWithin(limits: string -> Limits, s: State) {
    forall p, m :: Count(s.db, Tpm(p, m), s.now) <= Max(limits(p).tpm, 0)
  }

  ghost predicate NonnegativeEstimates(s: State) {
    forall i | 0 <= i < |s.clients| :: s.clients[i].estimate >= 0
  }

  lemma StepKeepsTokens(rule: Rule, limits: string -> Limits, s: State, step: Step)
    requires TokensWithin(limits, s) && NonnegativeEstimates(s) && Enabled(s, step)
    requires Frugal(rule) && Lawful(rule, s, step)
    ensures TokensWithin(limits, Next(limits, s, step)) && NonnegativeEstimates(Next(limits, s, step))
  {
    if step.Reserve? {
      var bounds := Bounds(step.prefix, step.minute, limits(step.prefix), step.estimate);
      ReservedCounts(s.db, step.prefix, step.minute, limits(step.prefix), step.estimate, s.now);
      if AllFit(s.db, bounds, s.now) {
        assert Fits(s.db, bounds[1], s.now);
      }
    }
  }

  /** Under a rule that never allows more than the estimate, the token counters stay within their limits. */
  lemma {:induction false} TokensStayWithin(rule: Rule, limits: string -> Limits, steps: seq<Step>)
    requires Frugal(rule) && Obeys(rule, limits, steps)
    ensures TokensWithin(limits, Run(limits, steps)) && NonnegativeEstimates(Run(limits, steps))
  {
    if steps != [] {
      var init, step := steps[..|steps| - 1], steps[|steps| - 1];
      assert init + [step] == steps;
      ObeysExtend(rule, limits, init, step);
      TokensStayWithin(rule, limits, init);
      if Enabled(Run(limits, init), step) {
        StepKeepsTokens(rule, limits, Run(limits, init), step);
      }
    }
  }

  // Two reservations fill the minute; the first request is admitted and settles.
  function TwoReservations(p: string, m: int, est: int, rest: int): seq<Step> {
    [] + [Reserve(p, m, est)] + [Reserve(p, m, rest)]
  }

  function FilledMinute(p: string, m: int, est: int, rest: int): seq<Step> {
    TwoReservations(p, m, est, rest) + [Acquire(0)]
  }

  ghost predicate BothReserved(s: State, p: string, m: int, est: int, rest: int) {
    && s.now == 0 && s.clients == [Newcomer(p, m, est, 0), Newcomer(p, m, rest, 0)]
    && Count(s.db, Conc(p), 0) == 0 && Count(s.db, Tpm(p, m), 0) == est + rest
  }

  lemma TwoBooked(s: State, s': State, p: string, m: int, est: int, rest: int)
    requires Booked(INIT, s, p, m, est) && Booked(s, s', p, m, rest)
    ensures BothReserved(s', p, m, est, rest)
  {
  }

  lemma TwoReservationsRun(limits: string -> Limits, p: string, m: int, est: int, rest: int)
    requires limits(p).rpm >= 2 && est <= limits(p).tpm && est + rest <= limits(p).tpm
    ensures BothReserved(Run(limits, TwoReservations(p, m, est, rest)), p, m, est, rest)
  {
    var first := [] + [Reserve(p, m, est)];
    ReserveThatFits(limits, [], p, m, est);
    ReserveThatFits(limits, first, p, m, rest);
    TwoBooked(Run(limits, first), Run(limits, first + [Reserve(p, m, rest)]), p, m, est, rest);
  }

  lemma MinuteFills(limits: string -> Limits, p: string, m: int, est: int)
    requires limits(p).rpm >= 2 && limits(p).concurrency >= 1 && 0 <= est <= limits(p).tpm
    ensures
      var s := Run(limits, FilledMinute(p, m, est, limits(p).tpm - est));
      && s.now == 0 && |s.clients| == 2 && Count(s.db, Tpm(p, m), 0) == limits(p).tpm
      && s.clients[0] == Newcomer(p, m, est, 0).(phase := Admitted, holding := true)
  {
    TwoReservationsRun(limits, p, m, est, limits(p).tpm - est);
    AcquireFree(limits, TwoReservations(p, m, est, limits(p).tpm - est), 0);
  }

  /** Any settlement above its estimate can take the counter over the limit, by exactly the difference. */
  lemma CorrectionOvershoots(limits: string -> Limits, p: string, m: int, est: int, actual: int)
    requires limits(p).rpm >= 2 && limits(p).concurrency >= 1 && 0 <= est <= limits(p).tpm && actual > est
    ensures
      var s := Run(limits, FilledMinute(p, m, est, limits(p).tpm - est) + [Settle(0, actual)]);
      Count(s.db, Tpm(p, m), s.now) == limits(p).tpm + actual - est
  {
    MinuteFills(limits, p, m, est);
    Extend(limits, FilledMinute(p, m, est, limits(p).tpm - est), Settle(0, actual));
  }

  lemma FilledMinuteObeys(rule: Rule, limits: string -> Limits, p: string, m: int, est: int, actual: int)
    requires limits(p).rpm >= 2 && limits(p).concurrency >= 1 && 0 <= est <= limits(p).tpm && rule(est, actual)
    ensures Obeys(rule, limits, FilledMinute(p, m, est, limits(p).tpm - est) + [Settle(0, actual)])
  {
    var rest := limits(p).tpm - est;
    MinuteFills(limits, p, m, est);
    ObeysExtend(rule, limits, [], Reserve(p, m, est));
    ObeysExtend(rule, limits, [] + [Reserve(p, m, est)], Reserve(p, m, rest));
    ObeysExtend(rule, limits, TwoReservations(p, m, est, rest), Acquire(0));
    ObeysExtend(rule, limits, FilledMinute(p, m, est, rest), Settle(0, actual));
  }

  // Every run under the rule, with whatever limits, keeps every token counter within its limit.
  ghost predicate KeepsTokens(rule: Rule) {
    forall limits: string -> Limits, steps | Obeys(rule, limits, steps) :: TokensWithin(limits, Run(limits, steps))
  }

  lemma OvershootBreaks(rule: Rule, limits: string -> Limits, steps: seq<Step>, p: string, m: int)
    requires Obeys(rule, limits, steps)
    requires
      var s := Run(limits, steps);
      Count(s.db, Tpm(p, m), s.now) > Max(limits(p).tpm, 0)
    ensures !KeepsTokens(rule)
  {
    assert !TokensWithin(limits, Run(limits, steps));
  }

  /**
   A rule for settlements keeps the token counters within their limits exactly when it never
   allows more than the estimate.
   */
  lemma RuleKeepsTokensIff(rule: Rule)
    ensures KeepsTokens(rule) <==> Frugal(rule)
  {
    if Frugal(rule) {
      forall limits: string -> Limits, steps | Obeys(rule, limits, steps)
        ensures TokensWithin(limits, Run(limits, steps))
      {
        TokensStayWithin(rule, limits, steps);
      }
    } else {
      var est, actual :| 0 <= est && rule(est, actual) && actual > est;
      var limits := (p: string) => Limits(2, est, 1);
      FilledMinuteObeys(rule, limits, "", 0, est, actual);
      CorrectionOvershoots(limits, "", 0, est, actual);
      OvershootBreaks(rule, limits, FilledMinute("", 0, est, 0) + [Settle(0, actual)], "", 0);
    }
  }
}
