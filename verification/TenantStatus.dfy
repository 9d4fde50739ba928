/**
 The read-through use of the cache in middleware/platform.go: a tenant's status
 comes from the cache, or from the lookup, whose successful answers are stored.
 */
module TenantStatus {
  import opened Wrappers
  import R = Recency
  import C = Cache

  // One call: the times of its cache read and write, and what the lookup answers if asked.
  datatype Call<E> = Call(tenant: nat, readAt: int, lookup: Result<int, E>, storedAt: int)

  type Entries = seq<R.Entry<nat, int>>

  // The cache operations one call performs on the list `s`.
  function Ops<E>(capacity: int, ttl: int, s: Entries, c: Call<E>): seq<R.Op<nat, int>> {
    var get := R.Get(c.readAt, c.tenant);
    if R.Step(capacity, ttl, s, get).1.Some? || c.lookup.Err? then [get]
    else [get, R.Set(c.storedAt, c.tenant, c.lookup.value)]
  }

  function Answer<E>(capacity: int, ttl: int, s: Entries, c: Call<E>): Result<int, E> {
    match R.Step(capacity, ttl, s, R.Get(c.readAt, c.tenant)).1
    case Some(v) => Ok(v)
    case None => c.lookup
  }

  method LookupStatus<E>(cache: C.LRU?<nat, int>, c: Call<E>) returns (status: Result<int, E>)
    requires cache != null ==> cache.Valid()
    modifies cache, set el | cache != null && el in cache.ll
    ensures cache == null ==> status == c.lookup
    ensures cache != null ==>
              && cache.Valid()
              && status == Answer(cache.capacity, cache.ttl, old(cache.View()), c)
              && var ops := Ops(cache.capacity, cache.ttl, old(cache.View()), c);
                 cache.View() == R.RunFrom(cache.capacity, cache.ttl, old(cache.View()), ops)
  {
    if cache != null {
      ghost var get := R.Get(c.readAt, c.tenant);
      ghost var s := cache.View();
      assert R.RunFrom(cache.capacity, cache.ttl, s, [get]) == R.Step(cache.capacity, cache.ttl, s, get).0 by {
        assert [get][..0] == [];
      }
      var hit := cache.Get(c.readAt, c.tenant);
      if hit.Some? {
        return Ok(hit.value);
      }
    }
    if c.lookup.Err? {
      return c.lookup;
    }
    if cache != null {
      ghost var ops := [R.Get(c.readAt, c.tenant), R.Set(c.storedAt, c.tenant, c.lookup.value)];
      assert ops[..1] == [R.Get(c.readAt, c.tenant)];
      cache.Set(c.storedAt, c.tenant, c.lookup.value);
    }
    return c.lookup;
  }

  // ---------- Many callers ----------

  // A caller between its cache read, its lookup and its cache write.
  datatype Phase<E> =
    | Asking
    | Missed
    | Looked(status: int)
    | Done(answer: Result<int, E>)

  // `readAt` and `storedAt` are the times of the cache read and write, `lookup` what the lookup gave.
  datatype Caller<E> = Caller(
    tenant: nat, phase: Phase<E>, readAt: Option<int>, lookup: Option<Result<int, E>>, storedAt: Option<int>)

  // The cache is known by the operations it has performed.
  datatype State<E> = State(ops: seq<R.Op<nat, int>>, callers: seq<Caller<E>>)

  datatype Step<E> =
    | Begin(tenant: nat)
    | Read(i: nat, now: int)
    | Look(i: nat, result: Result<int, E>)
    | Store(i: nat, now: int)
    | Drop(tenant: nat)
    | Purge

  predicate Enabled<E>(s: State<E>, step: Step<E>) {
    match step
    case Read(i, _) => i < |s.callers| && s.callers[i].phase.Asking?
    case Look(i, _) => i < |s.callers| && s.callers[i].phase.Missed?
    case Store(i, _) => i < |s.callers| && s.callers[i].phase.Looked?
    case _ => true
  }

  function Next<E>(capacity: int, ttl: int, s: State<E>, step: Step<E>): State<E>
    requires Enabled(s, step)
  {
    match step
    case Begin(tenant) => s.(callers := s.callers + [Caller(tenant, Asking, None, None, None)])
    case Read(i, now) =>
      var c := s.callers[i];
      var get := R.Get(now, c.tenant);
      var hit := R.Step(capacity, ttl, R.Run(capacity, ttl, s.ops), get).1;
      s.(ops := s.ops + [get],
         callers := s.callers[i := c.(readAt := Some(now), phase := if hit.Some? then Done(Ok(hit.value)) else Missed)])
    case Look(i, result) =>
      var c := s.callers[i];
      var phase := if result.Err? then Done(result) else Looked(result.value);
      s.(callers := s.callers[i := c.(lookup := Some(result), phase := phase)])
    case Store(i, now) =>
      var c := s.callers[i];
      s.(ops := s.ops + [R.Set(now, c.tenant, c.phase.status)],
         callers := s.callers[i := c.(storedAt := Some(now), phase := Done(Ok(c.phase.status)))])
    case Drop(tenant) => s.(ops := s.ops + [R.Delete(tenant)])
    case Purge => s.(ops := s.ops + [R.Purge])
  }

  // The state after any sequence of steps; a step that is not enabled does nothing.
  function Run<E>(capacity: int, ttl: int, steps: seq<Step<E>>): State<E> {
    if steps == [] then State([], [])
    else
      var s, step := Run(capacity, ttl, steps[..|steps| - 1]), steps[|steps| - 1];
      if Enabled(s, step) then Next(capacity, ttl, s, step) else s
  }

  function Do<E>(capacity: int, ttl: int, s: State<E>, step: Step<E>): State<E> {
    if Enabled(s, step) then Next(capacity, ttl, s, step) else s
  }

  lemma Extend<E>(capacity: int, ttl: int, steps: seq<Step<E>>, step: Step<E>)
    ensures Run(capacity, ttl, steps + [step]) == Do(capacity, ttl, Run(capacity, ttl, steps), step)
  {
    assert (steps + [step])[..|steps|] == steps;
  }

  // The steps, and then those of one call with nothing between them.
  function Alone<E>(steps: seq<Step<E>>, c: Call<E>, i: nat): seq<Step<E>> {
    steps + [Begin(c.tenant)] + [Read(i, c.readAt)] + [Look(i, c.lookup)] + [Store(i, c.storedAt)]
  }

  // The same steps on a state.
  function DoAlone<E>(capacity: int, ttl: int, s: State<E>, c: Call<E>, i: nat): State<E> {
    var read := Do(capacity, ttl, Do(capacity, ttl, s, Begin(c.tenant)), Read(i, c.readAt));
    Do(capacity, ttl, Do(capacity, ttl, read, Look(i, c.lookup)), Store(i, c.storedAt))
  }

  lemma RunAlone<E>(capacity: int, ttl: int, steps: seq<Step<E>>, c: Call<E>, i: nat)
    ensures Run(capacity, ttl, Alone(steps, c, i)) == DoAlone(capacity, ttl, Run(capacity, ttl, steps), c, i)
  {
    var begun := steps + [Begin(c.tenant)];
    var read := begun + [Read(i, c.readAt)];
    Extend(capacity, ttl, steps, Begin(c.tenant));
    Extend(capacity, ttl, begun, Read(i, c.readAt));
    Extend(capacity, ttl, read, Look(i, c.lookup));
    Extend(capacity, ttl, read + [Look(i, c.lookup)], Store(i, c.storedAt));
  }

  lemma DoAloneIsLookup<E>(capacity: int, ttl: int, s: State<E>, c: Call<E>)
    ensures
      var i, list := |s.callers|, R.Run(capacity, ttl, s.ops);
      var s' := DoAlone(capacity, ttl, s, c, i);
      && |s'.callers| == i + 1 && s'.callers[i].phase == Done(Answer(capacity, ttl, list, c))
      && s'.ops == s.ops + Ops(capacity, ttl, list, c)
  {
  }

  /** When nothing comes between its steps, a call performs exactly the operations `Ops` and returns `Answer`. */
  lemma AloneIsLookup<E>(capacity: int, ttl: int, steps: seq<Step<E>>, c: Call<E>)
    ensures
      var s := Run(capacity, ttl, steps);
      var i, list := |s.callers|, R.Run(capacity, ttl, s.ops);
      var s' := Run(capacity, ttl, Alone(steps, c, i));
      && |s'.callers| == i + 1 && s'.callers[i].phase == Done(Answer(capacity, ttl, list, c))
      && s'.ops == s.ops + Ops(capacity, ttl, list, c)
  {
    var s := Run(capacity, ttl, steps);
    RunAlone(capacity, ttl, steps, c, |s.callers|);
    DoAloneIsLookup(capacity, ttl, s, c);
  }

  // Caller `j` looked this status up for the tenant and stored it at this time.
  ghost predicate Stored<E>(s: State<E>, j: nat, tenant: nat, status: int, at: int) {
    && j < |s.callers| && s.callers[j].tenant == tenant
    && s.callers[j].lookup == Some(Ok(status)) && s.callers[j].storedAt == Some(at)
  }

  // Every write to the cache carries a successful lookup.
  ghost predicate WritesAreLookups<E>(s: State<E>) {
    forall op | op in s.ops && op.Set? :: exists j: nat :: Stored(s, j, op.key, op.value, op.now)
  }

  // The answer was looked up by this caller, or stored at most ttl before it was read.
  ghost predicate Supported<E>(ttl: int, s: State<E>, i: nat)
    requires i < |s.callers| && s.callers[i].phase.Done?
  {
    var c := s.callers[i];
    || c.lookup == Some(c.phase.answer)
    || (&& c.phase.answer.Ok? && c.readAt.Some? && c.lookup.None?
        && exists j: nat, at ::
             Stored(s, j, c.tenant, c.phase.answer.value, at) && (ttl > 0 ==> c.readAt.value <= at + ttl))
  }

  ghost predicate Inv<E>(ttl: int, s: State<E>) {
    && WritesAreLookups(s)
    && (forall i | 0 <= i < |s.callers| && s.callers[i].phase.Looked? ::
          s.callers[i].lookup == Some(Ok(s.callers[i].phase.status)))
    && (forall i | 0 <= i < |s.callers| && (s.callers[i].phase.Asking? || s.callers[i].phase.Missed?) ::
          s.callers[i].lookup.None?)
    && (forall i | 0 <= i < |s.callers| && s.callers[i].storedAt.Some? ::
          s.callers[i].phase.Done? && s.callers[i].phase.answer.Ok?)
    && (forall i | 0 <= i < |s.callers| && s.callers[i].phase.Done? :: Supported(ttl, s, i))
  }

  // The latest Set is among the operations.
  lemma {:induction false} LatestSetOccurs(ops: seq<R.Op<nat, int>>, key: nat)
    requires R.LatestSet(ops, key).Some?
    ensures
      var latest := R.LatestSet(ops, key).value;
      R.Set(latest.1, key, latest.0) in ops
  {
    var last := ops[|ops| - 1];
    if !(last.Set? && last.key == key) {
      LatestSetOccurs(ops[..|ops| - 1], key);
    }
  }

  // A hit was stored at most ttl before.
  lemma HitIsStored<E>(capacity: int, ttl: int, s: State<E>, now: int, tenant: nat) returns (j: nat, at: int)
    requires WritesAreLookups(s)
    requires R.Step(capacity, ttl, R.Run(capacity, ttl, s.ops), R.Get(now, tenant)).1.Some?
    ensures Stored(s, j, tenant, R.Step(capacity, ttl, R.Run(capacity, ttl, s.ops), R.Get(now, tenant)).1.value, at)
    ensures ttl > 0 ==> now <= at + ttl
  {
    var get := R.Get(now, tenant);
    var ops := s.ops + [get];
    assert ops[..|s.ops|] == s.ops && ops[|s.ops|] == get;
    R.HitIsLatestSet(capacity, ttl, ops, |s.ops|);
    LatestSetOccurs(s.ops, tenant);
    var latest := R.LatestSet(s.ops, tenant).value;
    at := latest.1;
    j :| Stored(s, j, tenant, latest.0, at);
  }

  // Facts about stored statuses survive a step.
  lemma StoredStays<E>(capacity: int, ttl: int, s: State<E>, step: Step<E>)
    requires Inv(ttl, s) && Enabled(s, step)
    ensures
      var s' := Next(capacity, ttl, s, step);
      && (forall j: nat, t, v, at | Stored(s, j, t, v, at) :: Stored(s', j, t, v, at))
      && (forall i | 0 <= i < |s.callers| && s.callers[i].phase.Done? :: s'.callers[i] == s.callers[i])
  {
  }

  lemma StepKeepsWrites<E>(capacity: int, ttl: int, s: State<E>, step: Step<E>)
    requires Inv(ttl, s) && Enabled(s, step)
    ensures WritesAreLookups(Next(capacity, ttl, s, step))
  {
    var s' := Next(capacity, ttl, s, step);
    StoredStays(capacity, ttl, s, step);
    forall op | op in s'.ops && op.Set?
      ensures exists j: nat :: Stored(s', j, op.key, op.value, op.now)
    {
      if op in s.ops {
        var j: nat :| Stored(s, j, op.key, op.value, op.now);
        assert Stored(s', j, op.key, op.value, op.now);
      } else {
        assert Stored(s', step.i, op.key, op.value, op.now);
      }
    }
  }

  lemma StepSupports<E>(capacity: int, ttl: int, s: State<E>, step: Step<E>, i: nat)
    requires Inv(ttl, s) && Enabled(s, step)
    requires i < |Next(capacity, ttl, s, step).callers| && Next(capacity, ttl, s, step).callers[i].phase.Done?
    ensures Supported(ttl, Next(capacity, ttl, s, step), i)
  {
    var s' := Next(capacity, ttl, s, step);
    StoredStays(capacity, ttl, s, step);
    if i < |s.callers| && s.callers[i].phase.Done? {
      var c := s.callers[i];
      assert Supported(ttl, s, i);
      if c.lookup != Some(c.phase.answer) {
        var j: nat, at :| Stored(s, j, c.tenant, c.phase.answer.value, at) && (ttl > 0 ==> c.readAt.value <= at + ttl);
        assert Stored(s', j, c.tenant, c.phase.answer.value, at);
      }
    } else if step.Read? {
      var j, at := HitIsStored(capacity, ttl, s, step.now, s.callers[i].tenant);
      assert Stored(s', j, s.callers[i].tenant, s'.callers[i].phase.answer.value, at);
    }
  }

  lemma {:induction false} RunKeepsInv<E>(capacity: int, ttl: int, steps: seq<Step<E>>)
    ensures Inv(ttl, Run(capacity, ttl, steps))
  {
    if steps != [] {
      var s, step := Run(capacity, ttl, steps[..|steps| - 1]), steps[|steps| - 1];
      RunKeepsInv(capacity, ttl, steps[..|steps| - 1]);
      if Enabled(s, step) {
        StepKeepsWrites(capacity, ttl, s, step);
        forall i: nat |
          i < |Next(capacity, ttl, s, step).callers| && Next(capacity, ttl, s, step).callers[i].phase.Done?
          ensures Supported(ttl, Next(capacity, ttl, s, step), i)
        {
          StepSupports(capacity, ttl, s, step, i);
        }
      }
    }
  }

  /**
   However calls overlap, a status that is returned was given for that tenant by the lookup of
   this call, or by that of a call that stored it at most ttl before this one read it.
   */
  lemma StatusComesFromLookup<E>(capacity: int, ttl: int, steps: seq<Step<E>>, i: nat)
    requires
      var cs := Run(capacity, ttl, steps).callers;
      i < |cs| && cs[i].phase.Done? && cs[i].phase.answer.Ok?
    ensures
      var s := Run(capacity, ttl, steps);
      var c := s.callers[i];
      || c.lookup == Some(c.phase.answer)
      || exists j: nat, at ::
           && Stored(s, j, c.tenant, c.phase.answer.value, at)
           && (ttl > 0 ==> c.readAt.Some? && c.readAt.value <= at + ttl)
  {
    RunKeepsInv(capacity, ttl, steps);
    var s := Run(capacity, ttl, steps);
    assert Supported(ttl, s, i);
  }

  /**
   However calls overlap, an error that is returned is this call's own, and no write to the
   cache carries a failed lookup.
   */
  lemma ErrorsAreNotCached<E>(capacity: int, ttl: int, steps: seq<Step<E>>)
    ensures
      var s := Run(capacity, ttl, steps);
      && WritesAreLookups(s)
      && (forall i | 0 <= i < |s.callers| && s.callers[i].phase.Done? && s.callers[i].phase.answer.Err? ::
            s.callers[i].lookup == Some(s.callers[i].phase.answer) && s.callers[i].storedAt.None?)
  {
    RunKeepsInv(capacity, ttl, steps);
    var s := Run(capacity, ttl, steps);
    forall i | 0 <= i < |s.callers| && s.callers[i].phase.Done? && s.callers[i].phase.answer.Err?
      ensures s.callers[i].lookup == Some(s.callers[i].phase.answer)
    {
      assert Supported(ttl, s, i);
    }
  }
}
