/**
 How long slots may be held and corrections delayed: both may take any time short of the
 time to live of the counters, and no longer.
 */
module RateLimitHolds {
  import opened Wrappers
  import opened Redis
  import opened RateLimitScripts
  import opened RateLimit

  // ---------- Slots ----------

  // Every slot of the prefix has been held for less than `limit`.
  ghost predicate HoldsBrief(s: State, p: string, limit: int) {
    forall i | 0 <= i < |s.clients| && s.clients[i].prefix == p && s.clients[i].holding ::
      s.now < s.clients[i].heldSince + limit
  }

  // In every state of the run slots are held briefly, and nobody releases a slot of the prefix without holding one.
  ghost predicate Brief(limits: string -> Limits, steps: seq<Step>, p: string, limit: int) {
    && (forall k | 0 <= k <= |steps| :: HoldsBrief(Run(limits, steps[..k]), p, limit))
    && (forall k | 0 <= k < |steps| :: !steps[k].SurplusRelease? || steps[k].owner != p)
  }

  lemma BriefExtend(limits: string -> Limits, steps: seq<Step>, step: Step, p: string, limit: int)
    ensures Brief(limits, steps + [step], p, limit) <==>
            && Brief(limits, steps, p, limit) && HoldsBrief(Run(limits, steps + [step]), p, limit)
            && (!step.SurplusRelease? || step.owner != p)
  {
    var all := steps + [step];
    assert all[..|all|] == all && all[|steps|] == step;
    assert forall k | 0 <= k <= |steps| :: all[..k] == steps[..k];
    assert forall k | 0 <= k < |steps| :: all[k] == steps[k];
  }

  // The slot counter lives at least as long as any slot may be held, and dies with nothing in it.
  ghost predicate Sustained(s: State, p: string) {
    var k := Conc(p);
    && k !in s.adrift
    && (k in s.db ==> Live(s.db[k], s.now) || s.db[k].value == 0)
    && (forall i | 0 <= i < |s.clients| && s.clients[i].prefix == p && s.clients[i].holding ::
          k in s.db && s.db[k].deadline.Some? && s.db[k].deadline.value >= s.clients[i].heldSince + KEY_TTL)
    && (forall i | 0 <= i < |s.clients| && s.clients[i].holding :: s.clients[i].heldSince <= s.now)
  }

  lemma {:induction false} SomeHolder(cs: seq<Client>, p: string) returns (i: nat)
    requires Holders(cs, p) > 0
    ensures i < |cs| && cs[i].prefix == p && cs[i].holding
  {
    var last := |cs| - 1;
    if cs[last].prefix == p && cs[last].holding {
      i := last;
    } else {
      i := SomeHolder(cs[..last], p);
    }
  }

  lemma TickSustains(limits: string -> Limits, s: State, to: int, p: string)
    requires Inv(limits, s) && Sustained(s, p) && s.now <= to
    requires HoldsBrief(Next(limits, s, Tick(to)), p, KEY_TTL)
    ensures Sustained(Next(limits, s, Tick(to)), p)
  {
    var k := Conc(p);
    if k in s.db && s.db[k].value != 0 {
      SlotTotal(s.clients, p);
      assert Count(s.db, k, s.now) == Total(k, s.clients);
      TotalNonnegative(k, s.clients);
      var i := SomeHolder(s.clients, p);
      assert Next(limits, s, Tick(to)).clients[i] == s.clients[i];
    }
  }

  lemma AcquireSustains(limits: string -> Limits, s: State, i: nat, p: string)
    requires Inv(limits, s) && Sustained(s, p) && Enabled(s, Acquire(i))
    ensures Sustained(Next(limits, s, Acquire(i)), p)
  {
  }

  lemma ReserveSustains(limits: string -> Limits, s: State, step: Step, p: string)
    requires Sustained(s, p) && step.Reserve?
    ensures Sustained(Next(limits, s, step), p)
  {
    ReserveDeadlines(s.db, step.prefix, step.minute, limits(step.prefix), step.estimate, s.now, Conc(p));
  }

  // The remaining steps leave the counter alone, or lower it while it lives.
  lemma OtherSustains(limits: string -> Limits, s: State, step: Step, p: string)
    requires Sustained(s, p) && Enabled(s, step)
    requires !step.Tick? && !step.Acquire? && !step.Reserve? && (!step.SurplusRelease? || step.owner != p)
    ensures Sustained(Next(limits, s, step), p)
  {
  }

  lemma StepSustains(limits: string -> Limits, s: State, step: Step, p: string)
    requires Inv(limits, s) && Sustained(s, p) && Enabled(s, step)
    requires HoldsBrief(Next(limits, s, step), p, KEY_TTL) && (!step.SurplusRelease? || step.owner != p)
    ensures Sustained(Next(limits, s, step), p)
  {
    match step
    case Tick(to) => TickSustains(limits, s, to, p);
    case Acquire(i) => AcquireSustains(limits, s, i, p);
    case Reserve(_, _, _) => ReserveSustains(limits, s, step, p);
    case _ => OtherSustains(limits, s, step, p);
  }

  lemma {:induction false} BriefSustains(limits: string -> Limits, steps: seq<Step>, p: string)
    requires Brief(limits, steps, p, KEY_TTL)
    ensures Sustained(Run(limits, steps), p)
  {
    if steps != [] {
      var init, step := steps[..|steps| - 1], steps[|steps| - 1];
      assert init + [step] == steps;
      BriefExtend(limits, init, step, p, KEY_TTL);
      BriefSustains(limits, init, p);
      RunKeepsInv(limits, init);
      if Enabled(Run(limits, init), step) {
        StepSustains(limits, Run(limits, init), step, p);
      }
    }
  }

  /** With slots held for less than 120 seconds the slot counter is the number of holders, within the limit. */
  lemma BriefHoldersAreCounted(limits: string -> Limits, steps: seq<Step>, p: string)
    requires Brief(limits, steps, p, 120)
    ensures
      var s := Run(limits, steps);
      Count(s.db, Conc(p), s.now) == Holders(s.clients, p) <= Max(limits(p).concurrency, 0)
  {
    BriefSustains(limits, steps, p);
    SlotsAreBounded(limits, steps, p);
  }

  // A request without tokens that takes a slot and keeps it.
  function Stay(steps: seq<Step>, p: string, m: int, i: nat): seq<Step> {
    steps + [Reserve(p, m, 0)] + [Acquire(i)]
  }

  // n such requests at time zero, each counted in a minute of its own.
  function Stays(p: string, n: nat): seq<Step> {
    if n == 0 then [] else Stay(Stays(p, n - 1), p, n - 1, n - 1)
  }

  function Stayer(p: string, m: int, now: int): Client {
    Newcomer(p, m, 0, now).(phase := Admitted, holding := true)
  }

  // What one more stay does.
  ghost predicate Stayed(s: State, s': State, p: string, m: int) {
    && s'.now == s.now && s'.clients == s.clients + [Stayer(p, m, s.now)]
    && (forall k :: Count(s'.db, k, s.now) == Count(s.db, k, s.now) + if k == Rpm(p, m) || k == Conc(p) then 1 else 0)
    && Expires(s', Conc(p))
  }

  lemma StayRuns(limits: string -> Limits, steps: seq<Step>, p: string, m: int)
    requires Room(limits(p), Run(limits, steps), p, m)
    ensures Stayed(Run(limits, steps), Run(limits, Stay(steps, p, m, |Run(limits, steps).clients|)), p, m)
  {
    ReserveThatFits(limits, steps, p, m, 0);
    AcquireFree(limits, steps + [Reserve(p, m, 0)], |Run(limits, steps).clients|);
  }

  // n slots are taken since time zero; the minutes from the n-th on are not used yet.
  ghost predicate AfterStays(s: State, p: string, n: nat) {
    && s.now == 0 && |s.clients| == n && Holders(s.clients, p) == n && Count(s.db, Conc(p), 0) == n
    && (n > 0 ==> Expires(s, Conc(p)))
    && (forall m | m >= n :: Count(s.db, Rpm(p, m), 0) == 0 && Count(s.db, Tpm(p, m), 0) == 0)
    && (forall i | 0 <= i < n :: s.clients[i].heldSince == 0)
  }

  lemma HoldersOfStay(cs: seq<Client>, p: string, m: int, now: int)
    ensures Holders(cs + [Stayer(p, m, now)], p) == Holders(cs, p) + 1
  {
    assert (cs + [Stayer(p, m, now)])[..|cs|] == cs;
  }

  lemma OneMoreStay(s: State, s': State, p: string, n: nat)
    requires AfterStays(s, p, n) && Stayed(s, s', p, n)
    ensures AfterStays(s', p, n + 1)
  {
    HoldersOfStay(s.clients, p, n, 0);
  }

  lemma {:induction false} StaysRun(limits: string -> Limits, p: string, n: nat)
    requires n <= limits(p).concurrency && limits(p).rpm >= 1 && limits(p).tpm >= 0
    ensures AfterStays(Run(limits, Stays(p, n)), p, n)
  {
    if n > 0 {
      var before := Stays(p, n - 1);
      StaysRun(limits, p, n - 1);
      StayRuns(limits, before, p, n - 1);
      OneMoreStay(Run(limits, before), Run(limits, Stays(p, n)), p, n - 1);
    }
  }

  // A stay keeps holds brief if they are brief before and after it.
  lemma StayBrief(limits: string -> Limits, steps: seq<Step>, p: string, m: int, limit: int)
    requires Brief(limits, steps, p, limit)
    requires HoldsBrief(Run(limits, Stay(steps, p, m, |Run(limits, steps).clients|)), p, limit)
    ensures Brief(limits, Stay(steps, p, m, |Run(limits, steps).clients|), p, limit)
  {
    var s := Run(limits, steps);
    var reserve := steps + [Reserve(p, m, 0)];
    assert steps[..|steps|] == steps && HoldsBrief(s, p, limit);
    Extend(limits, steps, Reserve(p, m, 0));
    BriefExtend(limits, steps, Reserve(p, m, 0), p, limit);
    BriefExtend(limits, reserve, Acquire(|s.clients|), p, limit);
  }

  lemma {:induction false} StaysBrief(limits: string -> Limits, p: string, n: nat, limit: int)
    requires n <= limits(p).concurrency && limits(p).rpm >= 1 && limits(p).tpm >= 0 && limit > 0
    ensures Brief(limits, Stays(p, n), p, limit)
  {
    if n > 0 {
      StaysBrief(limits, p, n - 1, limit);
      StaysRun(limits, p, n - 1);
      StaysRun(limits, p, n);
      StayBrief(limits, Stays(p, n - 1), p, n - 1, limit);
    }
  }

  // All slots are held for 120 seconds, and one more is given out.
  function LateStay(p: string, n: nat): seq<Step> {
    Stay(Stays(p, n) + [Tick(KEY_TTL)], p, n, n)
  }

  // When the slot counter has expired there is room again.
  lemma RoomAfterStays(limits: string -> Limits, steps: seq<Step>, p: string, n: nat)
    requires AfterStays(Run(limits, steps), p, n) && n > 0
    requires limits(p).concurrency >= 1 && limits(p).rpm >= 1 && limits(p).tpm >= 0
    ensures
      var s, late := Run(limits, steps), Run(limits, steps + [Tick(KEY_TTL)]);
      late.now == KEY_TTL && late.clients == s.clients && Room(limits(p), late, p, n)
  {
    Extend(limits, steps, Tick(KEY_TTL));
    var s := Run(limits, steps);
    assert Count(s.db, Rpm(p, n), 0) == 0 && Count(s.db, Tpm(p, n), 0) == 0;
  }

  lemma LateStayBrief(limits: string -> Limits, steps: seq<Step>, p: string, n: nat, limit: int)
    requires AfterStays(Run(limits, steps), p, n) && Brief(limits, steps, p, limit) && n > 0 && limit > KEY_TTL
    requires limits(p).concurrency >= 1 && limits(p).rpm >= 1 && limits(p).tpm >= 0
    ensures Brief(limits, Stay(steps + [Tick(KEY_TTL)], p, n, n), p, limit)
    ensures Holders(Run(limits, Stay(steps + [Tick(KEY_TTL)], p, n, n)).clients, p) == n + 1
  {
    var late := steps + [Tick(KEY_TTL)];
    RoomAfterStays(limits, steps, p, n);
    BriefExtend(limits, steps, Tick(KEY_TTL), p, limit);
    StayRuns(limits, late, p, n);
    HoldersOfStay(Run(limits, late).clients, p, n, KEY_TTL);
    StayBrief(limits, late, p, n, limit);
  }

  /** Slots held for exactly 120 seconds are given out again, whatever the limits. */
  lemma LongHoldsOvershoot(limits: string -> Limits, p: string, limit: int)
    requires limits(p).concurrency >= 1 && limits(p).rpm >= 1 && limits(p).tpm >= 0 && limit > 120
    ensures Brief(limits, LateStay(p, limits(p).concurrency), p, limit)
    ensures Holders(Run(limits, LateStay(p, limits(p).concurrency)).clients, p) == limits(p).concurrency + 1
  {
    var n := limits(p).concurrency;
    StaysRun(limits, p, n);
    StaysBrief(limits, p, n, limit);
    LateStayBrief(limits, Stays(p, n), p, n, limit);
  }

  // No run with holds shorter than `limit` has more holders than slots.
  ghost predicate SlotsAreSafe(limits: string -> Limits, p: string, limit: int) {
    forall steps | Brief(limits, steps, p, limit) :: Holders(Run(limits, steps).clients, p) <= limits(p).concurrency
  }

  lemma BriefMonotone(limits: string -> Limits, steps: seq<Step>, p: string, a: int, b: int)
    requires Brief(limits, steps, p, a) && a <= b
    ensures Brief(limits, steps, p, b)
  {
    forall k | 0 <= k <= |steps|
      ensures HoldsBrief(Run(limits, steps[..k]), p, b)
    {
      assert HoldsBrief(Run(limits, steps[..k]), p, a);
    }
  }

  /**
   There are never more holders than slots, in every run without surplus releases, exactly
   when every hold is shorter than 120 seconds.
   */
  lemma SlotsAreSafeIff(limits: string -> Limits, p: string, limit: int)
    requires limits(p).concurrency >= 1 && limits(p).rpm >= 1 && limits(p).tpm >= 0
    ensures SlotsAreSafe(limits, p, limit) <==> limit <= 120
  {
    if limit <= 120 {
      forall steps | Brief(limits, steps, p, limit)
        ensures Holders(Run(limits, steps).clients, p) <= limits(p).concurrency
      {
        BriefMonotone(limits, steps, p, limit, 120);
        BriefHoldersAreCounted(limits, steps, p);
      }
    } else {
      LongHoldsOvershoot(limits, p, limit);
    }
  }

  // ---------- Deadlines ----------

  // Every counter key has a deadline.
  ghost predicate Mortal(s: State) {
    forall k | k in s.db :: s.db[k].deadline.Some?
  }

  // A rollback or correction comes less than `limit` after the reservation it corrects.
  predicate PromptStep(s: State, step: Step, limit: int) {
    (step.UndoRpm? || step.UndoTpm? || step.Settle?) && Enabled(s, step) ==>
      s.now < s.clients[step.i].reservedAt + limit
  }

  ghost predicate Prompt(limits: string -> Limits, steps: seq<Step>, limit: int) {
    forall i | 0 <= i < |steps| :: PromptStep(Run(limits, steps[..i]), steps[i], limit)
  }

  lemma PromptExtend(limits: string -> Limits, steps: seq<Step>, step: Step, limit: int)
    ensures Prompt(limits, steps + [step], limit) <==>
            Prompt(limits, steps, limit) && PromptStep(Run(limits, steps), step, limit)
  {
    var all := steps + [step];
    assert all[..|steps|] == steps && all[|steps|] == step;
    assert forall i | 0 <= i < |steps| :: all[..i] == steps[..i] && all[i] == steps[i];
  }

  // The counter is kept for 120 seconds from the reservation at least.
  predicate KeptFor(s: State, k: Key, since: int) {
    k in s.db && s.db[k].deadline.Some? && s.db[k].deadline.value >= since + KEY_TTL
  }

  ghost predicate Kept(s: State) {
    forall i | 0 <= i < |s.clients| ::
      var c := s.clients[i];
      && c.reservedAt <= s.now
      && KeptFor(s, Rpm(c.prefix, c.minute), c.reservedAt)
      && KeptFor(s, Tpm(c.prefix, c.minute), c.reservedAt)
  }

  lemma ReserveKeeps(limits: string -> Limits, s: State, step: Step)
    requires Mortal(s) && Kept(s) && step.Reserve?
    ensures Mortal(Next(limits, s, step)) && Kept(Next(limits, s, step))
  {
    forall k: Key
      ensures
        var db' := IncrementAll(s.db, Bounds(step.prefix, step.minute, limits(step.prefix), step.estimate), s.now);
        if k == Rpm(step.prefix, step.minute) || k == Tpm(step.prefix, step.minute)
        then k in db' && db'[k].deadline == Some(s.now + KEY_TTL)
        else (k in db' <==> k in s.db) && (k in s.db ==> db'[k] == s.db[k])
    {
      ReserveDeadlines(s.db, step.prefix, step.minute, limits(step.prefix), step.estimate, s.now, k);
    }
  }

  // A prompt correction finds its counter alive.
  lemma CorrectionKeeps(limits: string -> Limits, s: State, step: Step)
    requires Mortal(s) && Kept(s) && Enabled(s, step) && PromptStep(s, step, KEY_TTL)
    requires step.UndoRpm? || step.UndoTpm? || step.Settle?
    ensures Mortal(Next(limits, s, step)) && Kept(Next(limits, s, step))
  {
    var c := s.clients[step.i];
    assert KeptFor(s, Rpm(c.prefix, c.minute), c.reservedAt) && KeptFor(s, Tpm(c.prefix, c.minute), c.reservedAt);
  }

  lemma OtherKeeps(limits: string -> Limits, s: State, step: Step)
    requires Mortal(s) && Kept(s) && Enabled(s, step)
    requires step.Tick? || step.Acquire? || step.Release? || step.SurplusRelease?
    ensures Mortal(Next(limits, s, step)) && Kept(Next(limits, s, step))
  {
  }

  lemma {:induction false} PromptKeeps(limits: string -> Limits, steps: seq<Step>)
    requires Prompt(limits, steps, KEY_TTL)
    ensures Mortal(Run(limits, steps)) && Kept(Run(limits, steps))
  {
    if steps != [] {
      var init, step := steps[..|steps| - 1], steps[|steps| - 1];
      var s := Run(limits, init);
      assert init + [step] == steps;
      PromptExtend(limits, init, step, KEY_TTL);
      PromptKeeps(limits, init);
      if Enabled(s, step) {
        if step.Reserve? {
          ReserveKeeps(limits, s, step);
        } else if step.UndoRpm? || step.UndoTpm? || step.Settle? {
          CorrectionKeeps(limits, s, step);
        } else {
          OtherKeeps(limits, s, step);
        }
      }
    }
  }

  // A request that settles 120 seconds after its reservation.
  function LateSettlement(p: string, m: int, est: int, actual: int): seq<Step> {
    [] + [Reserve(p, m, est)] + [Acquire(0)] + [Tick(KEY_TTL)] + [Settle(0, actual)]
  }

  lemma LateSettlementRuns(limits: string -> Limits, p: string, m: int, est: int, actual: int)
    requires limits(p).rpm >= 1 && limits(p).concurrency >= 1 && est <= limits(p).tpm && actual != est
    ensures
      var before := Run(limits, [] + [Reserve(p, m, est)] + [Acquire(0)] + [Tick(KEY_TTL)]);
      var db := Run(limits, LateSettlement(p, m, est, actual)).db;
      && before.now == KEY_TTL && |before.clients| == 1 && before.clients[0].reservedAt == 0
      && Tpm(p, m) in db && db[Tpm(p, m)] == Cell(actual - est, None)
  {
    var a := [] + [Reserve(p, m, est)];
    var b := a + [Acquire(0)];
    ReserveThatFits(limits, [], p, m, est);
    AcquireFree(limits, a, 0);
    assert Expires(Run(limits, b), Tpm(p, m));
    Extend(limits, b, Tick(KEY_TTL));
    Extend(limits, b + [Tick(KEY_TTL)], Settle(0, actual));
  }

  /** Any correction of a counter that has expired leaves a key with the difference and no deadline. */
  lemma LateCorrectionLeavesKey(limits: string -> Limits, p: string, m: int, est: int, actual: int, limit: int)
    requires limits(p).rpm >= 1 && limits(p).concurrency >= 1 && est <= limits(p).tpm
    requires actual != est && limit > 120
    ensures Prompt(limits, LateSettlement(p, m, est, actual), limit)
    ensures
      var db := Run(limits, LateSettlement(p, m, est, actual)).db;
      Tpm(p, m) in db && db[Tpm(p, m)] == Cell(actual - est, None)
  {
    LateSettlementRuns(limits, p, m, est, actual);
    var a := [] + [Reserve(p, m, est)];
    var b := a + [Acquire(0)];
    var c := b + [Tick(KEY_TTL)];
    PromptExtend(limits, [], Reserve(p, m, est), limit);
    PromptExtend(limits, a, Acquire(0), limit);
    PromptExtend(limits, b, Tick(KEY_TTL), limit);
    PromptExtend(limits, c, Settle(0, actual), limit);
  }

  // No run with corrections sooner than `limit` leaves a key without a deadline.
  ghost predicate KeysExpire(limits: string -> Limits, limit: int) {
    forall steps | Prompt(limits, steps, limit) :: Mortal(Run(limits, steps))
  }

  lemma PromptMonotone(limits: string -> Limits, steps: seq<Step>, a: int, b: int)
    requires Prompt(limits, steps, a) && a <= b
    ensures Prompt(limits, steps, b)
  {
    forall i | 0 <= i < |steps|
      ensures PromptStep(Run(limits, steps[..i]), steps[i], b)
    {
      assert PromptStep(Run(limits, steps[..i]), steps[i], a);
    }
  }

  /**
   Every counter key keeps a deadline, in every run, exactly when rollbacks and corrections
   come within 120 seconds of their reservation.
   */
  lemma KeysExpireIff(limits: string -> Limits, p: string, limit: int)
    requires limits(p).rpm >= 1 && limits(p).concurrency >= 1 && limits(p).tpm >= 0
    ensures KeysExpire(limits, limit) <==> limit <= 120
  {
    if limit <= 120 {
      forall steps | Prompt(limits, steps, limit)
        ensures Mortal(Run(limits, steps))
      {
        PromptMonotone(limits, steps, limit, 120);
        PromptKeeps(limits, steps);
      }
    } else {
      LateCorrectionLeavesKey(limits, p, 0, 0, 1, limit);
    }
  }
}
