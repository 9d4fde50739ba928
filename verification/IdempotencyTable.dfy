/**
 The idempotency_records table: its rows, and the five statements that touch it,
 each atomic.  Times are in nanoseconds.
 */
module IdempotencyTable {
  import opened Wrappers

  const SECOND: int := 1_000_000_000
  const RUNNING_TIMEOUT: int := 60 * SECOND
  const RECORD_TTL: int := 24 * 3600 * SECOND

  datatype Scope = Scope(tenant: nat, principal: nat, method_: string, path: string, key: string)

  datatype Status = InProgress | Completed | CompletedSensitive

  datatype Response = Response(code: int, body: string)

  datatype Record = Record(
    scope: Scope, hash: string, status: Status, response: Option<Response>,
    createdAt: int, expiresAt: int, runningExpiresAt: Option<int>)

  // Rows by id; ids are given out in order and never reused.
  datatype Table = Table(rows: map<nat, Record>, nextId: nat)

  const EMPTY := Table(map[], 1)

  ghost predicate UniqueScope(rows: map<nat, Record>) {
    forall i, j | i in rows && j in rows && rows[i].scope == rows[j].scope :: i == j
  }

  ghost predicate Wf(t: Table) {
    t.nextId > 0 && UniqueScope(t.rows) && forall id | id in t.rows :: 0 < id < t.nextId
  }

  // The row of a scope.
  ghost function Get(t: Table, scope: Scope): (id: Option<nat>)
    ensures id.Some? ==> id.value in t.rows && t.rows[id.value].scope == scope
    ensures id.None? ==> forall i | i in t.rows :: t.rows[i].scope != scope
  {
    if i :| i in t.rows && t.rows[i].scope == scope then Some(i) else None
  }

  function NewRecord(scope: Scope, hash: string, ttl: int, now: int): Record {
    Record(scope, hash, InProgress, None, now, now + ttl, Some(now + RUNNING_TIMEOUT))
  }

  function Insert(t: Table, rec: Record): Table {
    Table(t.rows[t.nextId := rec], t.nextId + 1)
  }

  // Rewrites the hash and the running deadline of a row that is still in progress.
  function Restart(t: Table, id: nat, hash: string, now: int): Table {
    if id in t.rows && t.rows[id].status.InProgress? then
      t.(rows := t.rows[id := t.rows[id].(hash := hash, runningExpiresAt := Some(now + RUNNING_TIMEOUT))])
    else t
  }

  // The stored form of a response: a sensitive one loses its body.
  function Stored(code: int, body: string, sensitive: bool): Response {
    Response(code, if sensitive then "" else body)
  }

  // Completes a row whatever its status is.
  function Complete(t: Table, id: nat, code: int, body: string, sensitive: bool): Table {
    if id in t.rows then
      var status := if sensitive then CompletedSensitive else Completed;
      t.(rows := t.rows[id := t.rows[id].(status := status, response := Some(Stored(code, body, sensitive)),
                                          runningExpiresAt := None)])
    else t
  }

  function Expired(t: Table, before: int): set<nat> {
    set id | id in t.rows && t.rows[id].expiresAt < before
  }

  function GcLimit(limit: int): int {
    if limit <= 0 || limit > 10000 then 1000 else limit
  }

  // A choice the DELETE may make: expired rows only, all of them or as many as the limit allows.
  predicate GcChoice(t: Table, before: int, limit: int, ids: set<nat>) {
    && ids <= Expired(t, before)
    && |ids| <= GcLimit(limit)
    && (|ids| == GcLimit(limit) || ids == Expired(t, before))
  }

  function Delete(t: Table, ids: set<nat>): Table {
    t.(rows := t.rows - ids)
  }

  // What the service decides about a row it has read.
  datatype Verdict = Mismatch | Replay(response: Response) | Sensitive | Stale | InProcess

  function Decide(rec: Record, hash: string, now: int): Verdict {
    if rec.hash != hash then Mismatch
    else
      match rec.status
      case Completed => Replay(if rec.response.Some? then rec.response.value else Response(200, ""))
      case CompletedSensitive => Sensitive
      case InProgress =>
        if rec.runningExpiresAt.Some? && now > rec.runningExpiresAt.value then Stale else InProcess
  }

  datatype Error = InvalidInput | NotFound | RequestMismatch | RequestInProcess | SensitiveResponse

  datatype Outcome = Started(id: nat) | Replayed(id: nat, response: Response) | Failed(error: Error)

  // The outcome of a verdict that ends the call.
  function Conclude(v: Verdict, id: nat): Outcome
    requires !v.Stale?
  {
    match v
    case Mismatch => Failed(RequestMismatch)
    case Replay(r) => Replayed(id, r)
    case Sensitive => Failed(SensitiveResponse)
    case InProcess => Failed(RequestInProcess)
  }
}
