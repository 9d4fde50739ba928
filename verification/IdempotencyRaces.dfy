/**
 Any number of Begin calls, completions and garbage collections on one table, with
 every statement a separate step, so that calls overtake each other between them.
 */
module IdempotencyRaces {
  import opened Wrappers
  import opened IdempotencyTable

  datatype Phase =
    | Asking(retry: bool)                          // about to read; again after a duplicate
    | Found(id: nat, rec: Record)                  // has read a row and is to decide
    | Creating(since: int)                         // found no row
    | Restarting(id: nat, rec: Record, since: int) // found a stale row
    | Done(outcome: Outcome, created: bool)

  datatype Client = Client(scope: Scope, hash: string, phase: Phase)

  // A call was told to start the work of a row, `held` if the row was there; or a row was completed.
  datatype Event =
    | Start(id: nat, stamp: int, held: bool)
    | Completion(id: nat, sensitive: bool, code: int, body: string)

  // `born` keeps every row as it was created, `log` every start and every completion that found its row.
  datatype State = State(
    table: Table, clients: seq<Client>, now: int, born: map<nat, Record>, log: seq<Event>)

  datatype Step =
    | Tick(to: int)
    | Begin(scope: Scope, hash: string)
    | Read(i: nat)
    | Judge(i: nat)
    | Create(i: nat, stamp: int)
    | Restart(i: nat, stamp: int)
    | Complete(id: nat, code: int, body: string, sensitive: bool)
    | Gc(before: int, limit: int, ids: set<nat>)

  const INIT := State(EMPTY, [], 0, map[], [])

  ghost predicate Enabled(s: State, step: Step) {
    match step
    case Tick(to) => s.now <= to
    case Begin(_, _) => true
    case Read(i) => i < |s.clients| && s.clients[i].phase.Asking?
    case Judge(i) => i < |s.clients| && s.clients[i].phase.Found?
    case Create(i, stamp) =>
      i < |s.clients| && s.clients[i].phase.Creating? && s.clients[i].phase.since <= stamp <= s.now
    case Restart(i, stamp) =>
      i < |s.clients| && s.clients[i].phase.Restarting? && s.clients[i].phase.since <= stamp <= s.now
    case Complete(id, code, _, _) => id != 0 && 100 <= code <= 599
    case Gc(before, limit, ids) => before <= s.now && GcChoice(s.table, before, limit, ids)
  }

  // The state with client `i` moved to another phase.
  function Move(s: State, i: nat, phase: Phase): State
    requires i < |s.clients|
  {
    s.(clients := s.clients[i := s.clients[i].(phase := phase)])
  }

  ghost function Next(ttl: int, s: State, step: Step): State
    requires Enabled(s, step)
  {
    match step
    case Tick(to) => s.(now := to)
    case Begin(scope, hash) => s.(clients := s.clients + [Client(scope, hash, Asking(false))])
    case Read(i) =>
      (match Get(s.table, s.clients[i].scope)
       case Some(id) => Move(s, i, Found(id, s.table.rows[id]))
       case None => Move(s, i, if s.clients[i].phase.retry then Done(Failed(NotFound), false) else Creating(s.now)))
    case Judge(i) =>
      var Found(id, rec) := s.clients[i].phase;
      var verdict := Decide(rec, s.clients[i].hash, s.now);
      Move(s, i, if verdict.Stale? then Restarting(id, rec, s.now) else Done(Conclude(verdict, id), false))
    case Create(i, stamp) =>
      var c := s.clients[i];
      if Get(s.table, c.scope).Some? then Move(s, i, Asking(true))
      else
        var rec := NewRecord(c.scope, c.hash, ttl, stamp);
        Move(s, i, Done(Started(s.table.nextId), true))
          .(table := Insert(s.table, rec), born := s.born[s.table.nextId := rec],
            log := s.log + [Start(s.table.nextId, stamp, true)])
    case Restart(i, stamp) =>
      var id := s.clients[i].phase.id;
      Move(s, i, Done(Started(id), false))
        .(table := IdempotencyTable.Restart(s.table, id, s.clients[i].hash, stamp),
          log := s.log + [Start(id, stamp, id in s.table.rows)])
    case Complete(id, code, body, sensitive) =>
      s.(table := IdempotencyTable.Complete(s.table, id, code, body, sensitive),
         log := if id in s.table.rows then s.log + [Completion(id, sensitive, code, body)] else s.log)
    case Gc(_, _, ids) => s.(table := Delete(s.table, ids))
  }

  // The state after any sequence of steps; a step that is not enabled does nothing.
  ghost function RunFrom(ttl: int, s: State, steps: seq<Step>): State {
    if steps == [] then s
    else
      var mid, step := RunFrom(ttl, s, steps[..|steps| - 1]), steps[|steps| - 1];
      if Enabled(mid, step) then Next(ttl, mid, step) else mid
  }

  ghost function Run(ttl: int, steps: seq<Step>): State {
    RunFrom(ttl, INIT, steps)
  }

  // ---------- The invariant ----------

  // The response of a row comes from a completion of that row.
  ghost predicate Backed(log: seq<Event>, id: nat, rec: Record) {
    match rec.status
    case InProgress => rec.response.None?
    case Completed =>
      rec.response.Some? && Completion(id, false, rec.response.value.code, rec.response.value.body) in log
    case CompletedSensitive => rec.response.Some? && rec.response.value.body == ""
  }

  // What a row keeps from its creation.
  ghost predicate Descends(born: map<nat, Record>, id: nat, rec: Record) {
    && id in born
    && rec.scope == born[id].scope && rec.hash == born[id].hash
    && rec.createdAt == born[id].createdAt && rec.expiresAt == born[id].expiresAt
  }

  ghost predicate RowOk(s: State, id: nat, rec: Record) {
    Descends(s.born, id, rec) && Backed(s.log, id, rec)
  }

  ghost predicate ClientOk(s: State, c: Client) {
    match c.phase
    case Found(id, rec) => RowOk(s, id, rec) && rec.scope == c.scope
    case Restarting(id, rec, _) => RowOk(s, id, rec) && rec.scope == c.scope && rec.hash == c.hash
    case Done(Started(id), _) => id in s.born && s.born[id].scope == c.scope && s.born[id].hash == c.hash
    case Done(Replayed(id, r), created) =>
      && !created && id in s.born && s.born[id].scope == c.scope && s.born[id].hash == c.hash
      && Completion(id, false, r.code, r.body) in s.log
    case Done(Failed(_), created) => !created
    case _ => true
  }

  ghost predicate Creator(c: Client) {
    c.phase.Done? && c.phase.created && c.phase.outcome.Started?
  }

  ghost predicate CreatorsDiffer(cs: seq<Client>) {
    forall i, j | 0 <= i < j < |cs| && Creator(cs[i]) && Creator(cs[j]) ::
      cs[i].phase.outcome.id != cs[j].phase.outcome.id
  }

  ghost predicate Inv(s: State) {
    && Wf(s.table)
    && (forall id | id in s.born :: id < s.table.nextId)
    && (forall id | id in s.table.rows :: RowOk(s, id, s.table.rows[id]))
    && (forall i | 0 <= i < |s.clients| :: ClientOk(s, s.clients[i]))
    && CreatorsDiffer(s.clients)
  }

  // ---------- Every step keeps it ----------

  // Facts about rows and clients survive the growth of `born` and `log`.
  ghost predicate Grows(s: State, s': State) {
    && (forall id | id in s.born :: id in s'.born && s'.born[id] == s.born[id])
    && (forall c | c in s.log :: c in s'.log)
  }

  lemma GrowthKeeps(s: State, s': State)
    requires Grows(s, s')
    ensures forall id, rec | RowOk(s, id, rec) :: RowOk(s', id, rec)
    ensures forall c | ClientOk(s, c) :: ClientOk(s', c)
  {
    forall id, rec | RowOk(s, id, rec)
      ensures RowOk(s', id, rec)
    {
    }
  }

  lemma MoveKeepsInv(s: State, i: nat, phase: Phase)
    requires Inv(s) && i < |s.clients|
    requires ClientOk(s, s.clients[i].(phase := phase)) && !Creator(s.clients[i].(phase := phase))
    ensures Inv(Move(s, i, phase))
  {
    var s' := Move(s, i, phase);
    GrowthKeeps(s, s');
  }

  // The id of a new row is none that an earlier call has created.
  lemma NewIdIsNew(s: State, i: nat, c: Client)
    requires Inv(s) && i < |s.clients|
    requires c.phase == Done(Started(s.table.nextId), true)
    ensures CreatorsDiffer(s.clients[i := c])
  {
    forall j | 0 <= j < |s.clients| && j != i && Creator(s.clients[j])
      ensures s.clients[j].phase.outcome.id != s.table.nextId
    {
      assert ClientOk(s, s.clients[j]);
    }
  }

  lemma InsertKeepsInv(s: State, rec: Record, stamp: int)
    requires Inv(s) && Get(s.table, rec.scope).None? && Backed([], s.table.nextId, rec)
    ensures
      var id := s.table.nextId;
      Inv(s.(table := Insert(s.table, rec), born := s.born[id := rec], log := s.log + [Start(id, stamp, true)]))
  {
    var id, log := s.table.nextId, s.log + [Start(s.table.nextId, stamp, true)];
    GrowthKeeps(s, s.(table := Insert(s.table, rec), born := s.born[id := rec], log := log));
  }

  lemma CreateKeepsInv(ttl: int, s: State, i: nat, stamp: int)
    requires Inv(s) && Enabled(s, Create(i, stamp))
    ensures Inv(Next(ttl, s, Create(i, stamp)))
  {
    var c := s.clients[i];
    if Get(s.table, c.scope).Some? {
      MoveKeepsInv(s, i, Asking(true));
    } else {
      InsertKeepsInv(s, NewRecord(c.scope, c.hash, ttl, stamp), stamp);
      NewIdIsNew(s, i, c.(phase := Done(Started(s.table.nextId), true)));
    }
  }

  lemma RestartKeepsInv(ttl: int, s: State, i: nat, stamp: int)
    requires Inv(s) && Enabled(s, Restart(i, stamp))
    ensures Inv(Next(ttl, s, Restart(i, stamp)))
  {
    var id := s.clients[i].phase.id;
    assert ClientOk(s, s.clients[i]);
    var mid := Move(s, i, Done(Started(id), false));
    MoveKeepsInv(s, i, Done(Started(id), false));
    GrowthKeeps(mid, Next(ttl, s, Restart(i, stamp)));
  }

  lemma CompleteKeepsInv(ttl: int, s: State, step: Step)
    requires Inv(s) && step.Complete? && Enabled(s, step)
    ensures Inv(Next(ttl, s, step))
  {
    var s' := Next(ttl, s, step);
    GrowthKeeps(s, s');
    if step.id in s.table.rows {
      assert Completion(step.id, step.sensitive, step.code, step.body) in s'.log;
    }
  }

  lemma JudgeKeepsInv(ttl: int, s: State, i: nat)
    requires Inv(s) && Enabled(s, Judge(i))
    ensures Inv(Next(ttl, s, Judge(i)))
  {
    var Found(id, rec) := s.clients[i].phase;
    assert ClientOk(s, s.clients[i]);
    var verdict := Decide(rec, s.clients[i].hash, s.now);
    MoveKeepsInv(s, i, if verdict.Stale? then Restarting(id, rec, s.now) else Done(Conclude(verdict, id), false));
  }

  lemma StepKeepsInv(ttl: int, s: State, step: Step)
    requires Inv(s) && Enabled(s, step)
    ensures Inv(Next(ttl, s, step))
  {
    var s' := Next(ttl, s, step);
    match step
    case Tick(_) => GrowthKeeps(s, s');
    case Begin(_, _) => GrowthKeeps(s, s');
    case Gc(_, _, _) => GrowthKeeps(s, s');
    case Create(i, stamp) => CreateKeepsInv(ttl, s, i, stamp);
    case Restart(i, stamp) => RestartKeepsInv(ttl, s, i, stamp);
    case Complete(_, _, _, _) => CompleteKeepsInv(ttl, s, step);
    case Judge(i) => JudgeKeepsInv(ttl, s, i);
    case Read(i) => MoveKeepsInv(s, i, s'.clients[i].phase);
  }

  lemma {:induction false} RunKeepsInv(ttl: int, steps: seq<Step>)
    ensures Inv(Run(ttl, steps))
  {
    if steps != [] {
      var mid, step := Run(ttl, steps[..|steps| - 1]), steps[|steps| - 1];
      RunKeepsInv(ttl, steps[..|steps| - 1]);
      if Enabled(mid, step) {
        StepKeepsInv(ttl, mid, step);
      }
    }
  }

  // ---------- Safety of every interleaving ----------

  /** Of the calls that created a row for one scope, at most one has its row in the table. */
  lemma OneCreateWins(ttl: int, steps: seq<Step>, i: nat, j: nat)
    requires
      var cs := Run(ttl, steps).clients;
      i < j < |cs| && Creator(cs[i]) && Creator(cs[j]) && cs[i].scope == cs[j].scope
    ensures
      var s := Run(ttl, steps);
      var a, b := s.clients[i].phase.outcome.id, s.clients[j].phase.outcome.id;
      a != b && !(a in s.table.rows && b in s.table.rows)
  {
    RunKeepsInv(ttl, steps);
    var s := Run(ttl, steps);
    assert ClientOk(s, s.clients[i]) && ClientOk(s, s.clients[j]);
  }

  /** A row keeps the hash, scope, creation time and expiry it was created with; sensitive rows have no body. */
  lemma RowsKeepTheirOrigin(ttl: int, steps: seq<Step>, id: nat)
    requires id in Run(ttl, steps).table.rows
    ensures
      var s := Run(ttl, steps);
      var rec := s.table.rows[id];
      && Descends(s.born, id, rec)
      && (rec.status.CompletedSensitive? ==> rec.response.Some? && rec.response.value.body == "")
  {
    RunKeepsInv(ttl, steps);
    assert RowOk(Run(ttl, steps), id, Run(ttl, steps).table.rows[id]);
  }

  /** A replay returns what a completion of the row stored, and the request hash is that of the row. */
  lemma ReplayWasStored(ttl: int, steps: seq<Step>, i: nat)
    requires
      var cs := Run(ttl, steps).clients;
      i < |cs| && cs[i].phase.Done? && cs[i].phase.outcome.Replayed?
    ensures
      var s := Run(ttl, steps);
      var Replayed(id, r) := s.clients[i].phase.outcome;
      && Completion(id, false, r.code, r.body) in s.log
      && id in s.born && s.born[id].hash == s.clients[i].hash && s.born[id].scope == s.clients[i].scope
  {
    RunKeepsInv(ttl, steps);
    assert ClientOk(Run(ttl, steps), Run(ttl, steps).clients[i]);
  }

  // The row is complete or gone.
  ghost predicate Finished(s: State, id: nat) {
    id < s.table.nextId && (id in s.table.rows ==> !s.table.rows[id].status.InProgress?)
  }

  lemma {:induction false} FinishedStays(ttl: int, s: State, steps: seq<Step>, id: nat)
    requires Finished(s, id)
    ensures Finished(RunFrom(ttl, s, steps), id)
  {
    if steps != [] {
      FinishedStays(ttl, s, steps[..|steps| - 1], id);
    }
  }

  lemma {:induction false} RunSplits(ttl: int, s: State, a: seq<Step>, b: seq<Step>)
    ensures RunFrom(ttl, s, a + b) == RunFrom(ttl, RunFrom(ttl, s, a), b)
  {
    if b == [] {
      assert a + b == a;
    } else {
      assert (a + b)[..|a + b| - 1] == a + b[..|b| - 1];
      RunSplits(ttl, s, a, b[..|b| - 1]);
    }
  }

  /** However the run goes on, a completed row never returns to in-progress and a removed one never returns. */
  lemma CompletedStaysCompleted(ttl: int, before: seq<Step>, after: seq<Step>, id: nat)
    requires id in Run(ttl, before).table.rows && !Run(ttl, before).table.rows[id].status.InProgress?
    ensures
      var rows := Run(ttl, before + after).table.rows;
      id in rows ==> !rows[id].status.InProgress?
  {
    RunKeepsInv(ttl, before);
    FinishedStays(ttl, Run(ttl, before), after, id);
    RunSplits(ttl, INIT, before, after);
  }

  lemma Extend(ttl: int, steps: seq<Step>, s: State, step: Step)
    requires Run(ttl, steps) == s && Enabled(s, step)
    ensures Run(ttl, steps + [step]) == Next(ttl, s, step)
  {
    assert (steps + [step])[..|steps|] == steps;
  }

  // ---------- When starts keep their distance ----------

  // Every start found its row, more than the running timeout after any earlier start of it and
  // before any completion of it.
  ghost predicate Orderly(log: seq<Event>) {
    forall j | 0 <= j < |log| && log[j].Start? :: OrderlyStart(log[..j], log[j])
  }

  ghost predicate OrderlyStart(before: seq<Event>, e: Event)
    requires e.Start?
  {
    && e.held
    && forall i | 0 <= i < |before| && before[i].id == e.id ::
         before[i].Start? && before[i].stamp + 60 * 1_000_000_000 < e.stamp
  }

  // The restart finds its row in progress with a running deadline before its own reading of the clock.
  predicate Due(s: State, i: nat, stamp: int)
    requires i < |s.clients| && s.clients[i].phase.Restarting?
  {
    var id := s.clients[i].phase.id;
    && id in s.table.rows && s.table.rows[id].status.InProgress?
    && s.table.rows[id].runningExpiresAt.Some? && s.table.rows[id].runningExpiresAt.value < stamp
  }

  // A restart that is carried out is due.
  ghost predicate DueStep(s: State, step: Step) {
    step.Restart? && Enabled(s, step) ==> Due(s, step.i, step.stamp)
  }

  ghost predicate AllDue(ttl: int, steps: seq<Step>) {
    forall k | 0 <= k < |steps| :: DueStep(Run(ttl, steps[..k]), steps[k])
  }

  lemma AllDueExtend(ttl: int, steps: seq<Step>, step: Step)
    ensures AllDue(ttl, steps + [step]) <==> AllDue(ttl, steps) && DueStep(Run(ttl, steps), step)
  {
    var all := steps + [step];
    assert all[..|steps|] == steps && all[|steps|] == step;
    assert forall i | 0 <= i < |steps| :: all[..i] == steps[..i] && all[i] == steps[i];
  }

  lemma OrderlyExtend(log: seq<Event>, e: Event)
    ensures Orderly(log + [e]) <==> Orderly(log) && (e.Start? ==> OrderlyStart(log, e))
  {
    var all := log + [e];
    assert all[..|log|] == log && all[|log|] == e;
    assert forall i | 0 <= i < |log| :: all[..i] == log[..i] && all[i] == log[i];
  }

  // What the table and the log say about each other, in every run.
  ghost predicate Logged(s: State) {
    && (forall e | e in s.log :: e.id < s.table.nextId)
    && (forall id | id in s.table.rows && s.table.rows[id].status.InProgress? :: DeadlineLogged(s, id))
    && (forall id | id in s.table.rows && !s.table.rows[id].status.InProgress? :: CompletionLogged(s, id))
  }

  // The running deadline is that of some start of the row, and no completion is logged.
  ghost predicate DeadlineLogged(s: State, id: nat)
    requires id in s.table.rows
  {
    && s.table.rows[id].runningExpiresAt.Some?
    && (exists e :: e in s.log && e.Start? && e.id == id &&
                    s.table.rows[id].runningExpiresAt == Some(e.stamp + RUNNING_TIMEOUT))
    && (forall e | e in s.log && e.id == id :: e.Start?)
  }

  ghost predicate CompletionLogged(s: State, id: nat) {
    exists e :: e in s.log && e.Completion? && e.id == id
  }

  lemma LogGrows(s: State, s': State, e: Event, id: nat)
    requires s'.log == s.log + [e] && e.id != id && id in s.table.rows && id in s'.table.rows
    requires s'.table.rows[id] == s.table.rows[id]
    ensures DeadlineLogged(s, id) ==> DeadlineLogged(s', id)
    ensures CompletionLogged(s, id) ==> CompletionLogged(s', id)
  {
    assert forall x :: x in s'.log <==> x in s.log || x == e;
  }

  lemma CreateKeepsLogged(ttl: int, s: State, i: nat, stamp: int)
    requires Inv(s) && Logged(s) && Enabled(s, Create(i, stamp)) && Get(s.table, s.clients[i].scope).None?
    ensures Logged(Next(ttl, s, Create(i, stamp)))
  {
    var s' := Next(ttl, s, Create(i, stamp));
    var e := Start(s.table.nextId, stamp, true);
    assert forall x :: x in s'.log <==> x in s.log || x == e;
    forall id | id in s.table.rows
      ensures s'.table.rows[id] == s.table.rows[id]
      ensures DeadlineLogged(s, id) ==> DeadlineLogged(s', id)
      ensures CompletionLogged(s, id) ==> CompletionLogged(s', id)
    {
      LogGrows(s, s', e, id);
    }
    assert e in s'.log && DeadlineLogged(s', s.table.nextId);
  }

  lemma RestartedRowLogged(ttl: int, s: State, i: nat, stamp: int)
    requires Inv(s) && Logged(s) && Enabled(s, Restart(i, stamp)) && s.clients[i].phase.id in s.table.rows
    ensures
      var s', id := Next(ttl, s, Restart(i, stamp)), s.clients[i].phase.id;
      if s.table.rows[id].status.InProgress? then DeadlineLogged(s', id) else CompletionLogged(s', id)
  {
    var s', id := Next(ttl, s, Restart(i, stamp)), s.clients[i].phase.id;
    var e := Start(id, stamp, true);
    assert forall x :: x in s'.log <==> x in s.log || x == e;
    if s.table.rows[id].status.InProgress? {
      assert DeadlineLogged(s, id);
      assert e in s'.log;
    } else {
      assert CompletionLogged(s, id);
    }
  }

  lemma RestartKeepsLogged(ttl: int, s: State, i: nat, stamp: int)
    requires Inv(s) && Logged(s) && Enabled(s, Restart(i, stamp))
    ensures Logged(Next(ttl, s, Restart(i, stamp)))
  {
    var s' := Next(ttl, s, Restart(i, stamp));
    var mine := s.clients[i].phase.id;
    var e := Start(mine, stamp, mine in s.table.rows);
    assert ClientOk(s, s.clients[i]);
    assert forall x :: x in s'.log <==> x in s.log || x == e;
    forall id | id in s.table.rows && id != mine
      ensures s'.table.rows[id] == s.table.rows[id]
      ensures DeadlineLogged(s, id) ==> DeadlineLogged(s', id)
      ensures CompletionLogged(s, id) ==> CompletionLogged(s', id)
    {
      LogGrows(s, s', e, id);
    }
    if mine in s.table.rows {
      RestartedRowLogged(ttl, s, i, stamp);
    }
  }

  lemma CompleteKeepsLogged(ttl: int, s: State, step: Step)
    requires Inv(s) && Logged(s) && step.Complete? && Enabled(s, step) && step.id in s.table.rows
    ensures Logged(Next(ttl, s, step))
  {
    var s' := Next(ttl, s, step);
    var e := Completion(step.id, step.sensitive, step.code, step.body);
    assert forall x :: x in s'.log <==> x in s.log || x == e;
    forall id | id in s.table.rows && id != step.id
      ensures s'.table.rows[id] == s.table.rows[id]
      ensures DeadlineLogged(s, id) ==> DeadlineLogged(s', id)
      ensures CompletionLogged(s, id) ==> CompletionLogged(s', id)
    {
      LogGrows(s, s', e, id);
    }
    assert e in s'.log && CompletionLogged(s', step.id);
  }

  // Steps that write neither a start nor a completion leave the log and the remaining rows as they are.
  lemma QuietStep(ttl: int, s: State, step: Step)
    requires Enabled(s, step)
    requires !step.Restart? && !(step.Complete? && step.id in s.table.rows)
    requires !(step.Create? && Get(s.table, s.clients[step.i].scope).None?)
    ensures
      var s' := Next(ttl, s, step);
      && s'.log == s.log && s'.table.nextId == s.table.nextId
      && (forall id | id in s'.table.rows :: id in s.table.rows && s'.table.rows[id] == s.table.rows[id])
  {
  }

  lemma QuietKeepsLogged(s: State, s': State)
    requires Logged(s) && s'.log == s.log && s'.table.nextId == s.table.nextId
    requires forall id | id in s'.table.rows :: id in s.table.rows && s'.table.rows[id] == s.table.rows[id]
    ensures Logged(s')
  {
    forall id | id in s'.table.rows
      ensures DeadlineLogged(s, id) ==> DeadlineLogged(s', id)
      ensures CompletionLogged(s, id) ==> CompletionLogged(s', id)
    {
    }
  }

  lemma StepKeepsLogged(ttl: int, s: State, step: Step)
    requires Inv(s) && Logged(s) && Enabled(s, step)
    ensures Logged(Next(ttl, s, step))
  {
    if step.Restart? {
      RestartKeepsLogged(ttl, s, step.i, step.stamp);
    } else if step.Complete? && step.id in s.table.rows {
      CompleteKeepsLogged(ttl, s, step);
    } else if step.Create? && Get(s.table, s.clients[step.i].scope).None? {
      CreateKeepsLogged(ttl, s, step.i, step.stamp);
    } else {
      QuietStep(ttl, s, step);
      QuietKeepsLogged(s, Next(ttl, s, step));
    }
  }

  lemma {:induction false} RunLogged(ttl: int, steps: seq<Step>)
    ensures Inv(Run(ttl, steps)) && Logged(Run(ttl, steps))
  {
    RunKeepsInv(ttl, steps);
    if steps != [] {
      var init := steps[..|steps| - 1];
      RunLogged(ttl, init);
      if Enabled(Run(ttl, init), steps[|steps| - 1]) {
        StepKeepsLogged(ttl, Run(ttl, init), steps[|steps| - 1]);
      }
    }
  }

  // In an orderly log the running deadline is past every start of the row.
  // The row's running deadline is past the start by the running timeout.
  ghost predicate Covered(s: State, id: nat, e: Event) {
    id in s.table.rows && s.table.rows[id].status.InProgress? && e in s.log && e.id == id && e.Start? ==>
      s.table.rows[id].runningExpiresAt.Some? && e.stamp + RUNNING_TIMEOUT <= s.table.rows[id].runningExpiresAt.value
  }

  ghost predicate DeadlinesCover(s: State) {
    forall id, e :: Covered(s, id, e)
  }

  /** A restart makes an orderly start exactly when it is due. */
  lemma RestartIsOrderlyIff(s: State, i: nat, stamp: int)
    requires Inv(s) && Logged(s) && DeadlinesCover(s) && Enabled(s, Restart(i, stamp))
    ensures
      var id := s.clients[i].phase.id;
      OrderlyStart(s.log, Start(id, stamp, id in s.table.rows)) <==> Due(s, i, stamp)
  {
    var id := s.clients[i].phase.id;
    var start := Start(id, stamp, id in s.table.rows);
    if id in s.table.rows {
      if s.table.rows[id].status.InProgress? {
        assert DeadlineLogged(s, id);
        var e :| e in s.log && e.Start? && e.id == id &&
                 s.table.rows[id].runningExpiresAt == Some(e.stamp + RUNNING_TIMEOUT);
        var k :| 0 <= k < |s.log| && s.log[k] == e;
        if Due(s, i, stamp) {
          forall j | 0 <= j < |s.log| && s.log[j].id == id
            ensures s.log[j].Start? && s.log[j].stamp + RUNNING_TIMEOUT < stamp
          {
            assert s.log[j] in s.log && Covered(s, id, s.log[j]);
          }
        }
      } else {
        assert CompletionLogged(s, id);
        var e :| e in s.log && e.Completion? && e.id == id;
        var k :| 0 <= k < |s.log| && s.log[k] == e;
      }
    }
  }

  lemma CreateIsOrderly(s: State, stamp: int)
    requires Logged(s)
    ensures OrderlyStart(s.log, Start(s.table.nextId, stamp, true))
  {
    assert forall k | 0 <= k < |s.log| :: s.log[k] in s.log;
  }

  // While the log is orderly and the step is due, deadlines go on covering the starts.
  lemma RestartCovers(ttl: int, s: State, i: nat, stamp: int, id: nat, e: Event)
    requires Inv(s) && Logged(s) && Covered(s, id, e) && Enabled(s, Restart(i, stamp)) && Due(s, i, stamp)
    ensures Covered(Next(ttl, s, Restart(i, stamp)), id, e)
  {
    var s' := Next(ttl, s, Restart(i, stamp));
    assert e in s'.log <==> e in s.log || e == s'.log[|s.log|];
  }

  lemma StepCovers(ttl: int, s: State, step: Step, id: nat, e: Event)
    requires Inv(s) && Logged(s) && Covered(s, id, e) && Enabled(s, step) && DueStep(s, step)
    ensures Covered(Next(ttl, s, step), id, e)
  {
    var s' := Next(ttl, s, step);
    if step.Restart? {
      RestartCovers(ttl, s, step.i, step.stamp, id, e);
    } else {
      assert e in s'.log ==> e in s.log || (|s'.log| > |s.log| && e == s'.log[|s.log|]);
    }
  }

  lemma StepKeepsCover(ttl: int, s: State, step: Step)
    requires Inv(s) && Logged(s) && DeadlinesCover(s) && Enabled(s, step) && DueStep(s, step)
    ensures DeadlinesCover(Next(ttl, s, step))
  {
    forall id, e
      ensures Covered(Next(ttl, s, step), id, e)
    {
      assert Covered(s, id, e);
      StepCovers(ttl, s, step, id, e);
    }
  }

  lemma StepOrderlyIff(ttl: int, s: State, step: Step)
    requires Inv(s) && Logged(s) && DeadlinesCover(s) && Orderly(s.log) && Enabled(s, step)
    ensures Orderly(Next(ttl, s, step).log) <==> DueStep(s, step)
  {
    var s' := Next(ttl, s, step);
    if step.Restart? {
      var id := s.clients[step.i].phase.id;
      RestartIsOrderlyIff(s, step.i, step.stamp);
      OrderlyExtend(s.log, Start(id, step.stamp, id in s.table.rows));
    } else if step.Complete? && step.id in s.table.rows {
      OrderlyExtend(s.log, Completion(step.id, step.sensitive, step.code, step.body));
    } else if step.Create? && Get(s.table, s.clients[step.i].scope).None? {
      CreateIsOrderly(s, step.stamp);
      OrderlyExtend(s.log, Start(s.table.nextId, step.stamp, true));
    } else {
      QuietStep(ttl, s, step);
    }
  }

  // The log only grows, so disorder stays.
  lemma LogOnlyGrows(ttl: int, s: State, step: Step)
    requires Enabled(s, step) && Orderly(Next(ttl, s, step).log)
    ensures Orderly(s.log)
  {
    var log' := Next(ttl, s, step).log;
    if log' != s.log {
      assert log' == s.log + [log'[|s.log|]];
      OrderlyExtend(s.log, log'[|s.log|]);
    }
  }

  lemma {:induction false} OrderlyCovers(ttl: int, steps: seq<Step>)
    ensures Orderly(Run(ttl, steps).log) <==> AllDue(ttl, steps)
    ensures AllDue(ttl, steps) ==> DeadlinesCover(Run(ttl, steps))
  {
    if steps != [] {
      var init, step := steps[..|steps| - 1], steps[|steps| - 1];
      var s := Run(ttl, init);
      assert init + [step] == steps;
      OrderlyCovers(ttl, init);
      RunLogged(ttl, init);
      AllDueExtend(ttl, init, step);
      if Enabled(s, step) {
        if Orderly(Next(ttl, s, step).log) {
          LogOnlyGrows(ttl, s, step);
        }
        if AllDue(ttl, init) {
          StepOrderlyIff(ttl, s, step);
          if DueStep(s, step) {
            StepKeepsCover(ttl, s, step);
          }
        }
      }
    }
  }

  /**
   In every interleaving the starts are orderly (each on a row that is there, more than 60
   seconds after any earlier start of it, none after a completion of it) exactly when every
   restart that is carried out finds its row in progress with its running deadline passed.
   */
  lemma StartsAreOrderlyIff(ttl: int, steps: seq<Step>)
    ensures Orderly(Run(ttl, steps).log) <==> AllDue(ttl, steps)
  {
    OrderlyCovers(ttl, steps);
  }

  // ---------- Restarts that find the row as they read it ----------

  // The row is still the one the call read and judged stale.
  predicate AsRead(s: State, i: nat)
    requires i < |s.clients| && s.clients[i].phase.Restarting?
  {
    s.clients[i].phase.id in s.table.rows && s.table.rows[s.clients[i].phase.id] == s.clients[i].phase.rec
  }

  // A call that is to restart has judged its copy of the row stale.
  ghost predicate JudgedStale(s: State) {
    forall i | 0 <= i < |s.clients| && s.clients[i].phase.Restarting? ::
      var Restarting(_, rec, since) := s.clients[i].phase;
      rec.status.InProgress? && rec.runningExpiresAt.Some? && rec.runningExpiresAt.value < since
  }

  lemma StepJudgedStale(ttl: int, s: State, step: Step)
    requires JudgedStale(s) && Enabled(s, step)
    ensures JudgedStale(Next(ttl, s, step))
  {
  }

  lemma {:induction false} RunJudgedStale(ttl: int, steps: seq<Step>)
    ensures JudgedStale(Run(ttl, steps))
  {
    if steps != [] {
      var mid, step := Run(ttl, steps[..|steps| - 1]), steps[|steps| - 1];
      RunJudgedStale(ttl, steps[..|steps| - 1]);
      if Enabled(mid, step) {
        StepJudgedStale(ttl, mid, step);
      }
    }
  }

  // A restart that is carried out finds the row as read.
  ghost predicate AllAsRead(ttl: int, steps: seq<Step>) {
    forall k | 0 <= k < |steps| && steps[k].Restart? ::
      var s := Run(ttl, steps[..k]);
      Enabled(s, steps[k]) ==> AsRead(s, steps[k].i)
  }

  /** If every restart found its row as read, starts would be orderly in every interleaving. */
  lemma AsReadKeepsOrder(ttl: int, steps: seq<Step>)
    requires AllAsRead(ttl, steps)
    ensures Orderly(Run(ttl, steps).log)
  {
    forall k | 0 <= k < |steps|
      ensures DueStep(Run(ttl, steps[..k]), steps[k])
    {
      RunJudgedStale(ttl, steps[..k]);
    }
    StartsAreOrderlyIff(ttl, steps);
  }

  // The step restarts, completes or collects row `id`.
  ghost predicate Touches(s: State, step: Step, id: nat) {
    Enabled(s, step) &&
    match step
    case Restart(i, _) => s.clients[i].phase.id == id && id in s.table.rows && s.table.rows[id].status.InProgress?
    case Complete(x, _, _, _) => x == id && id in s.table.rows
    case Gc(_, _, ids) => id in ids
    case _ => false
  }

  // No step of the continuation touches the row.
  ghost predicate Untouched(ttl: int, s: State, steps: seq<Step>, id: nat) {
    steps != [] ==>
      var init := steps[..|steps| - 1];
      Untouched(ttl, s, init, id) && !Touches(RunFrom(ttl, s, init), steps[|steps| - 1], id)
  }

  // Every restart of the continuation that is carried out is due.
  ghost predicate DueFrom(ttl: int, s: State, steps: seq<Step>) {
    steps != [] ==>
      var init := steps[..|steps| - 1];
      DueFrom(ttl, s, init) && DueStep(RunFrom(ttl, s, init), steps[|steps| - 1])
  }

  // The row has moved on from `rec` for good.
  ghost predicate MovedOn(s: State, id: nat, rec: Record) {
    && id < s.table.nextId
    && (id in s.table.rows && s.table.rows[id].status.InProgress? ==>
          && s.table.rows[id].runningExpiresAt.Some? && rec.runningExpiresAt.Some?
          && s.table.rows[id].runningExpiresAt.value > rec.runningExpiresAt.value)
  }

  lemma StepMovesOn(ttl: int, s: State, step: Step, id: nat, rec: Record)
    requires Enabled(s, step) && DueStep(s, step) && id < s.table.nextId
    requires rec.status.InProgress? && rec.runningExpiresAt.Some?
    ensures MovedOn(s, id, rec) ==> MovedOn(Next(ttl, s, step), id, rec)
    ensures id in s.table.rows && s.table.rows[id] == rec ==>
              if Touches(s, step, id) then MovedOn(Next(ttl, s, step), id, rec)
              else id in Next(ttl, s, step).table.rows && Next(ttl, s, step).table.rows[id] == rec
  {
  }

  // Untouched, the row is as read; touched, it has moved on.
  ghost predicate RowAfter(s: State, id: nat, rec: Record, untouched: bool) {
    && id < s.table.nextId
    && if untouched then id in s.table.rows && s.table.rows[id] == rec else MovedOn(s, id, rec)
  }

  lemma StepRowAfter(ttl: int, s: State, step: Step, id: nat, rec: Record, untouched: bool)
    requires RowAfter(s, id, rec, untouched) && Enabled(s, step) && DueStep(s, step)
    requires rec.status.InProgress? && rec.runningExpiresAt.Some?
    ensures RowAfter(Next(ttl, s, step), id, rec, untouched && !Touches(s, step, id))
  {
    StepMovesOn(ttl, s, step, id, rec);
  }

  lemma {:induction false} RowAlongRun(ttl: int, s: State, steps: seq<Step>, id: nat, rec: Record)
    requires DueFrom(ttl, s, steps) && RowAfter(s, id, rec, true)
    requires rec.status.InProgress? && rec.runningExpiresAt.Some?
    ensures RowAfter(RunFrom(ttl, s, steps), id, rec, Untouched(ttl, s, steps, id))
  {
    if steps != [] {
      var init, step := steps[..|steps| - 1], steps[|steps| - 1];
      var mid := RunFrom(ttl, s, init);
      RowAlongRun(ttl, s, init, id, rec);
      if Enabled(mid, step) {
        StepRowAfter(ttl, mid, step, id, rec, Untouched(ttl, s, init, id));
      }
    }
  }

  // What a call does with the row it has found.
  ghost predicate Carries(s: State, i: nat, id: nat, rec: Record) {
    i < |s.clients| &&
    match s.clients[i].phase
    case Found(x, r) => x == id && r == rec
    case Restarting(x, r, _) => x == id && r == rec
    case Done(_, _) => true
    case _ => false
  }

  lemma {:induction false} CarriedAlong(ttl: int, s: State, steps: seq<Step>, i: nat, id: nat, rec: Record)
    requires Carries(s, i, id, rec)
    ensures Carries(RunFrom(ttl, s, steps), i, id, rec)
  {
    if steps != [] {
      CarriedAlong(ttl, s, steps[..|steps| - 1], i, id, rec);
    }
  }

  lemma ReadCarries(ttl: int, s: State, i: nat, id: nat)
    requires Enabled(s, Read(i)) && Get(s.table, s.clients[i].scope) == Some(id)
    ensures
      var s' := Next(ttl, s, Read(i));
      && s'.table == s.table && s'.log == s.log && Carries(s', i, id, s.table.rows[id])
  {
  }

  /**
   Among orderly restarts, a call that read a row and is about to restart it finds it as read
   exactly when no other call restarted, completed or collected it since.
   */
  lemma AsReadIff(ttl: int, before: seq<Step>, i: nat, after: seq<Step>, id: nat)
    requires Enabled(Run(ttl, before), Read(i))
    requires Get(Run(ttl, before).table, Run(ttl, before).clients[i].scope) == Some(id)
    requires
      var s := Next(ttl, Run(ttl, before), Read(i));
      && DueFrom(ttl, s, after)
      && i < |RunFrom(ttl, s, after).clients| && RunFrom(ttl, s, after).clients[i].phase.Restarting?
    ensures
      var s := Next(ttl, Run(ttl, before), Read(i));
      AsRead(RunFrom(ttl, s, after), i) <==> Untouched(ttl, s, after, id)
  {
    var s0 := Run(ttl, before);
    var s := Next(ttl, s0, Read(i));
    var rec := s0.table.rows[id];
    RunKeepsInv(ttl, before);
    ReadCarries(ttl, s0, i, id);
    CarriedAlong(ttl, s, after, i, id, rec);
    Extend(ttl, before, s0, Read(i));
    RunSplits(ttl, INIT, before + [Read(i)], after);
    RunJudgedStale(ttl, before + [Read(i)] + after);
    RowAlongRun(ttl, s, after, id, rec);
  }

  /**
   A second restart with the same reading of the clock touches the row and leaves it equal,
   so that restarts must be due above.
   */
  lemma RepeatedRestartIsInvisible(ttl: int, s: State, i: nat, j: nat, stamp: int)
    requires Inv(s) && i != j && Enabled(s, Restart(i, stamp)) && Enabled(s, Restart(j, stamp))
    requires s.clients[i].phase.id == s.clients[j].phase.id
    requires
      var id := s.clients[i].phase.id;
      id in s.table.rows && s.table.rows[id].status.InProgress?
    ensures
      var a := Next(ttl, s, Restart(i, stamp));
      && Touches(a, Restart(j, stamp), s.clients[i].phase.id)
      && Next(ttl, a, Restart(j, stamp)).table == a.table
  {
    assert ClientOk(s, s.clients[i]) && ClientOk(s, s.clients[j]);
  }

  // ---------- What overtaking does to a restart ----------

  const TEST_SCOPE := Scope(1, 1, "POST", "/", "k")

  const FIRST_READ := [] + [Begin(TEST_SCOPE, "h")] + [Read(0)]

  // One call creates a row and stalls.
  const STALLED := FIRST_READ + [Create(0, 0)] + [Tick(RUNNING_TIMEOUT + 1)]

  // A second and a third call read the row as stale.
  const TWO_READERS :=
    STALLED + [Begin(TEST_SCOPE, "h")] + [Begin(TEST_SCOPE, "h")] + [Read(1)] + [Read(2)] + [Judge(1)] + [Judge(2)]

  lemma FirstCallReads(ttl: int)
    ensures Run(ttl, FIRST_READ) == INIT.(clients := [Client(TEST_SCOPE, "h", Creating(0))])
  {
    Extend(ttl, [], INIT, Begin(TEST_SCOPE, "h"));
    var s := INIT.(clients := [Client(TEST_SCOPE, "h", Asking(false))]);
    assert Next(ttl, INIT, Begin(TEST_SCOPE, "h")) == s;
    Extend(ttl, [] + [Begin(TEST_SCOPE, "h")], s, Read(0));
  }

  lemma FirstCallCreates(ttl: int)
    ensures
      var s := Run(ttl, STALLED);
      && s.now == RUNNING_TIMEOUT + 1 && |s.clients| == 1
      && s.table.rows == map[1 := NewRecord(TEST_SCOPE, "h", ttl, 0)]
  {
    FirstCallReads(ttl);
    var s := Run(ttl, FIRST_READ);
    Extend(ttl, FIRST_READ, s, Create(0, 0));
    Extend(ttl, FIRST_READ + [Create(0, 0)], Next(ttl, s, Create(0, 0)), Tick(RUNNING_TIMEOUT + 1));
  }

  lemma TwoCallsReadStale(ttl: int)
    ensures
      var s := Run(ttl, TWO_READERS);
      && s.now == RUNNING_TIMEOUT + 1 && |s.clients| == 3
      && s.table.rows == map[1 := NewRecord(TEST_SCOPE, "h", ttl, 0)]
      && (forall i | 1 <= i < 3 ::
            s.clients[i].phase == Restarting(1, s.table.rows[1], s.now) && s.clients[i].hash == "h")
  {
    FirstCallCreates(ttl);
    var t, s := STALLED, Run(ttl, STALLED);
    var rec := s.table.rows[1];
    assert Get(s.table, TEST_SCOPE) == Some(1) by {
      assert rec.scope == TEST_SCOPE;
    }
    Extend(ttl, t, s, Begin(TEST_SCOPE, "h"));
    t, s := t + [Begin(TEST_SCOPE, "h")], Next(ttl, s, Begin(TEST_SCOPE, "h"));
    Extend(ttl, t, s, Begin(TEST_SCOPE, "h"));
    t, s := t + [Begin(TEST_SCOPE, "h")], Next(ttl, s, Begin(TEST_SCOPE, "h"));
    Extend(ttl, t, s, Read(1));
    t, s := t + [Read(1)], Next(ttl, s, Read(1));
    Extend(ttl, t, s, Read(2));
    t, s := t + [Read(2)], Next(ttl, s, Read(2));
    assert s.clients[1].phase == Found(1, rec) && s.clients[2].phase == Found(1, rec);
    Extend(ttl, t, s, Judge(1));
    t, s := t + [Judge(1)], Next(ttl, s, Judge(1));
    Extend(ttl, t, s, Judge(2));
  }

  /** Two overlapping calls can both be started on one row at the same moment. */
  lemma RacingRestartsBothStart(ttl: int)
    ensures
      var s := Run(ttl, TWO_READERS + [Restart(1, RUNNING_TIMEOUT + 1)] + [Restart(2, RUNNING_TIMEOUT + 1)]);
      && |s.clients| == 3
      && s.clients[1].phase == Done(Started(1), false) && s.clients[2].phase == Done(Started(1), false)
  {
    TwoCallsReadStale(ttl);
    var s, a, b := Run(ttl, TWO_READERS), Restart(1, RUNNING_TIMEOUT + 1), Restart(2, RUNNING_TIMEOUT + 1);
    Extend(ttl, TWO_READERS, s, a);
    Extend(ttl, TWO_READERS + [a], Next(ttl, s, a), b);
  }

  /** A call can be started on a row that was completed after it was read. */
  lemma StartedAfterCompletion(ttl: int)
    ensures
      var s := Run(ttl, TWO_READERS + [Complete(1, 200, "done", false)] + [Restart(1, RUNNING_TIMEOUT + 1)]);
      && |s.clients| == 3 && s.clients[1].phase == Done(Started(1), false)
      && 1 in s.table.rows && s.table.rows[1].status.Completed?
  {
    TwoCallsReadStale(ttl);
    var s, a, b := Run(ttl, TWO_READERS), Complete(1, 200, "done", false), Restart(1, RUNNING_TIMEOUT + 1);
    Extend(ttl, TWO_READERS, s, a);
    Extend(ttl, TWO_READERS + [a], Next(ttl, s, a), b);
  }
}
