/**
 The idempotency service when its calls run one at a time: the operations as they
 change the table, and what whole runs of them promise about timing and replay.
 */
module Idempotency {
  import opened Wrappers
  import opened IdempotencyTable
  import Races = IdempotencyRaces
  import Text

  datatype Input = Input(tenant: nat, principal: nat, key: string, method_: string, path: string, hash: string)

  function Normalized(x: Input): Input {
    x.(key := Text.TrimSpace(x.key), method_ := Text.ToUpper(Text.TrimSpace(x.method_)),
       path := Text.TrimSpace(x.path), hash := Text.TrimSpace(x.hash))
  }

  predicate ValidHash(hash: string) {
    var digits := Text.TrimPrefix(hash, "sha256:");
    |digits| == 64 && forall i | 0 <= i < 64 :: Text.IsHexDigit(digits[i])
  }

  // A normalised input the service works on.
  predicate Acceptable(x: Input) {
    && x.tenant != 0 && x.principal != 0
    && 0 < |x.key| <= 128 && 0 < |x.method_| <= 16 && 0 < |x.path| <= 255
    && ValidHash(x.hash)
  }

  function ScopeOf(x: Input): Scope {
    var n := Normalized(x);
    Scope(n.tenant, n.principal, n.method_, n.path, n.key)
  }

  // Tenant and principal are equal, key and path up to blank text at their ends, the method so up to case.
  ghost predicate SameCaller(x: Input, y: Input) {
    && x.tenant == y.tenant && x.principal == y.principal
    && Text.SameUpToBlanks(x.key, y.key) && Text.SameUpToBlanks(x.path, y.path)
    && Text.EqualFold(Text.TrimSpace(x.method_), Text.TrimSpace(y.method_))
  }

  /** Two inputs have one scope exactly when they come from one caller. */
  lemma ScopesAgreeIff(x: Input, y: Input)
    ensures ScopeOf(x) == ScopeOf(y) <==> SameCaller(x, y)
  {
    Text.TrimSame(x.key, y.key);
    Text.TrimSame(x.path, y.path);
    Text.UpperSame(Text.TrimSpace(x.method_), Text.TrimSpace(y.method_));
  }

  predicate SixtyFourHexDigits(s: string) {
    |s| == 64 && forall i | 0 <= i < 64 :: s[i] in "0123456789abcdefABCDEF"
  }

  lemma HexDigitIff(c: char)
    ensures Text.IsHexDigit(c) <==> c in "0123456789abcdefABCDEF"
  {
    if Text.IsHexDigit(c) {
      var n := c as int;
      var i := if c <= '9' then n - '0' as int else if c >= 'a' then n - 'a' as int + 10 else n - 'A' as int + 16;
      assert "0123456789abcdefABCDEF"[i] == c;
    }
  }

  lemma DigitsIff(s: string)
    ensures SixtyFourHexDigits(s) <==> |s| == 64 && forall i | 0 <= i < 64 :: Text.IsHexDigit(s[i])
  {
    forall i | 0 <= i < |s|
      ensures Text.IsHexDigit(s[i]) <==> s[i] in "0123456789abcdefABCDEF"
    {
      HexDigitIff(s[i]);
    }
  }

  /** A hash is valid exactly when it is 64 hexadecimal digits, with or without "sha256:" before them. */
  lemma ValidHashIff(hash: string)
    ensures ValidHash(hash) <==>
            SixtyFourHexDigits(hash) || exists digits :: hash == "sha256:" + digits && SixtyFourHexDigits(digits)
  {
    DigitsIff(hash);
    if "sha256:" <= hash {
      DigitsIff(hash[7..]);
      assert hash == "sha256:" + hash[7..] && hash[0] == 's';
      assert forall digits :: hash == "sha256:" + digits ==> digits == hash[7..];
    }
  }

  // ---------- The operations on the table ----------

  /** Begin: `check` and `stamp` are its first and second reading of the clock. */
  ghost function BeginOn(ttl: int, t: Table, x: Input, check: int, stamp: int): (Table, Outcome) {
    var n := Normalized(x);
    if !Acceptable(n) then (t, Failed(InvalidInput))
    else
      match Get(t, ScopeOf(x))
      case None => (Insert(t, NewRecord(ScopeOf(x), n.hash, ttl, stamp)), Started(t.nextId))
      case Some(id) =>
        var verdict := Decide(t.rows[id], n.hash, check);
        if verdict.Stale? then (Restart(t, id, n.hash, stamp), Started(id)) else (t, Conclude(verdict, id))
  }

  // The table as other calls have left it meanwhile, if they touched it.
  function Meanwhile(t: Table, others: Option<Table>): Table {
    if others.Some? then others.value else t
  }

  // The end of a Begin that has read row `rec`: the verdict on what was read, applied to the table of that moment.
  function Settled(t: Table, id: nat, rec: Record, hash: string, check: int, stamp: int): (Table, Outcome) {
    var verdict := Decide(rec, hash, check);
    if verdict.Stale? then (Restart(t, id, hash, stamp), Started(id)) else (t, Conclude(verdict, id))
  }

  /**
   Begin with other calls in between: `others` before its write, after a duplicate `later`
   before its second read and `last` before the restart that may follow.
   */
  ghost function BeginAmid(
    ttl: int, t: Table, x: Input, check: int, stamp: int,
    others: Option<Table>, later: Option<Table>, last: Option<Table>): (Table, Outcome)
  {
    var n := Normalized(x);
    if !Acceptable(n) then (t, Failed(InvalidInput))
    else
      var t1 := Meanwhile(t, others);
      match Get(t, ScopeOf(x))
      case Some(id) => Settled(t1, id, t.rows[id], n.hash, check, stamp)
      case None =>
        if Get(t1, ScopeOf(x)).None? then
          (Insert(t1, NewRecord(ScopeOf(x), n.hash, ttl, stamp)), Started(t1.nextId))
        else
          var t2 := Meanwhile(t1, later);
          match Get(t2, ScopeOf(x))
          case None => (t2, Failed(NotFound))
          case Some(id) => Settled(Meanwhile(t2, last), id, t2.rows[id], n.hash, check, stamp)
  }

  /** Undisturbed, it is the Begin of the runs below. */
  lemma BeginUndisturbed(ttl: int, t: Table, x: Input, check: int, stamp: int)
    ensures BeginAmid(ttl, t, x, check, stamp, None, None, None) == BeginOn(ttl, t, x, check, stamp)
  {
  }

  predicate CompletionValid(id: nat, code: int) {
    id != 0 && 100 <= code <= 599
  }

  class Repo {
    var rows: map<nat, Record>
    var nextId: nat

    ghost function View(): Table
      reads this
    {
      Table(rows, nextId)
    }

    constructor ()
      ensures View() == EMPTY
    {
      rows, nextId := map[], 1;
    }

    // What other calls do to the table.
    method Interfere(others: Option<Table>)
      modifies this
      ensures View() == Meanwhile(old(View()), others)
    {
      if others.Some? {
        rows, nextId := others.value.rows, others.value.nextId;
      }
    }

    method Find(scope: Scope) returns (found: Option<(nat, Record)>)
      requires Wf(View())
      ensures Get(View(), scope) == if found.Some? then Some(found.value.0) else None
      ensures found.Some? ==> found.value.0 in rows && found.value.1 == rows[found.value.0]
    {
      if id :| id in rows && rows[id].scope == scope {
        found := Some((id, rows[id]));
      } else {
        found := None;
      }
    }

    // Refused when the scope already has a row.
    method Create(rec: Record) returns (id: Option<nat>)
      requires Wf(View())
      modifies this
      ensures id == if Get(old(View()), rec.scope).Some? then None else Some(old(nextId))
      ensures Wf(View()) && View() == if id.None? then old(View()) else Insert(old(View()), rec)
    {
      var found := Find(rec.scope);
      if found.Some? {
        return None;
      }
      id := Some(nextId);
      rows := rows[nextId := rec];
      nextId := nextId + 1;
    }

    method RestartRow(id: nat, hash: string, now: int)
      requires Wf(View())
      modifies this
      ensures Wf(View()) && View() == Restart(old(View()), id, hash, now)
      ensures id in old(rows) && old(rows)[id].status.InProgress? ==>
                rows[id].hash == hash && rows[id].runningExpiresAt == Some(now + 60 * 1_000_000_000)
    {
      if id in rows && rows[id].status.InProgress? {
        rows := rows[id := rows[id].(hash := hash, runningExpiresAt := Some(now + RUNNING_TIMEOUT))];
      }
    }

    method CompleteRow(id: nat, status: Status, code: int, body: string)
      requires Wf(View())
      modifies this
      ensures Wf(View()) && nextId == old(nextId)
      ensures rows == if id in old(rows)
                      then old(rows)[id := old(rows)[id].(
                        status := status, response := Some(Response(code, body)), runningExpiresAt := None)]
                      else old(rows)
    {
      if id in rows {
        rows := rows[id := rows[id].(
          status := status, response := Some(Response(code, body)), runningExpiresAt := None)];
      }
    }

    // Deletes expired rows one by one, in any order, until the limit is reached.
    method DeleteExpired(before: int, limit: int) returns (ghost ids: set<nat>, n: nat)
      modifies this
      ensures GcChoice(old(View()), before, limit, ids) && n == |ids|
      ensures n <= if 1 <= limit <= 10000 then limit else 1000
      ensures n < (if 1 <= limit <= 10000 then limit else 1000) ==>
                forall id | id in rows :: rows[id].expiresAt >= before
      ensures View() == Delete(old(View()), ids)
    {
      var most := if limit <= 0 || limit > 10000 then 1000 else limit;
      ghost var was := rows;
      var expired := Expired(Table(rows, nextId), before);
      var left := expired;
      ids, n := {}, 0;
      while left != {} && n < most
        invariant n == |ids| <= most && nextId == old(nextId)
        invariant left <= expired && ids == expired - left
        invariant rows == was - ids
        decreases left
      {
        var id :| id in left;
        assert id !in ids;
        rows, left := rows - {id}, left - {id};
        ids, n := ids + {id}, n + 1;
        assert rows == was - ids;
      }
    }
  }

  class Service {
    const repo: Repo
    const ttl: int

    constructor (repo: Repo)
      ensures this.repo == repo && ttl == 24 * 3600 * 1_000_000_000
    {
      this.repo, ttl := repo, RECORD_TTL;
    }

    method Begin(
      x: Input, check: int, stamp: int, others: Option<Table>, later: Option<Table>, last: Option<Table>)
      returns (r: Outcome)
      requires Wf(repo.View()) && (others.Some? ==> Wf(others.value))
      requires (later.Some? ==> Wf(later.value)) && (last.Some? ==> Wf(last.value))
      modifies repo
      ensures Wf(repo.View())
      ensures (repo.View(), r) == BeginAmid(ttl, old(repo.View()), x, check, stamp, others, later, last)
    {
      var n := Normalized(x);
      if !Acceptable(n) {
        return Failed(InvalidInput);
      }
      var found := repo.Find(ScopeOf(x));
      repo.Interfere(others);
      if found.Some? {
        r := DecisionForExisting(found.value.0, found.value.1, n.hash, check, stamp);
        return;
      }
      var id := repo.Create(NewRecord(ScopeOf(x), n.hash, ttl, stamp));
      if id.None? {
        repo.Interfere(later);
        found := repo.Find(ScopeOf(x));
        if found.None? {
          return Failed(NotFound);
        }
        repo.Interfere(last);
        r := DecisionForExisting(found.value.0, found.value.1, n.hash, check, stamp);
        return;
      }
      return Started(id.value);
    }

    method DecisionForExisting(id: nat, rec: Record, hash: string, check: int, stamp: int) returns (r: Outcome)
      requires Wf(repo.View())
      modifies repo
      ensures Wf(repo.View()) && (repo.View(), r) == Settled(old(repo.View()), id, rec, hash, check, stamp)
    {
      if rec.hash != hash {
        return Failed(RequestMismatch);
      }
      match rec.status {
        case Completed =>
          var response := Response(200, "");
          if rec.response.Some? {
            response := rec.response.value;
          }
          return Replayed(id, response);
        case CompletedSensitive =>
          return Failed(SensitiveResponse);
        case InProgress =>
          if rec.runningExpiresAt.Some? && check > rec.runningExpiresAt.value {
            repo.RestartRow(id, hash, stamp);
            return Started(id);
          }
          return Failed(RequestInProcess);
      }
    }

    method CompleteRequest(id: nat, code: int, body: string, sensitive: bool) returns (ok: bool)
      requires Wf(repo.View())
      modifies repo
      ensures ok == (id != 0 && 100 <= code <= 599) && Wf(repo.View())
      ensures repo.View() == if ok then Complete(old(repo.View()), id, code, body, sensitive) else old(repo.View())
      ensures ok && id in old(repo.rows) ==>
                && repo.rows[id].status == (if sensitive then CompletedSensitive else Completed)
                && repo.rows[id].response == Some(Response(code, if sensitive then "" else body))
    {
      if id == 0 || code < 100 || code > 599 {
        return false;
      }
      var status, stored := Completed, body;
      if sensitive {
        status, stored := CompletedSensitive, "";
      }
      repo.CompleteRow(id, status, code, stored);
      return true;
    }

    method GcJob(limit: int, now: int) returns (ghost ids: set<nat>)
      modifies repo
      ensures GcChoice(old(repo.View()), now, limit, ids)
      ensures repo.View() == Delete(old(repo.View()), ids)
    {
      var n;
      ids, n := repo.DeleteExpired(now, limit);
    }
  }

  // ---------- The same call among others ----------

  ghost function Do(ttl: int, s: Races.State, step: Races.Step): Races.State {
    if Races.Enabled(s, step) then Races.Next(ttl, s, step) else s
  }

  // The rest of a call that has read, with the clock moved to `stamp` before its write.
  ghost function Finish(ttl: int, s: Races.State, i: nat, stamp: int): Races.State {
    var judged := Do(ttl, Do(ttl, s, Races.Judge(i)), Races.Tick(stamp));
    Do(ttl, Do(ttl, judged, Races.Create(i, stamp)), Races.Restart(i, stamp))
  }

  // A call's statements one after the other.
  ghost function Alone(ttl: int, s: Races.State, scope: Scope, hash: string, stamp: int): Races.State {
    var i := |s.clients|;
    Finish(ttl, Do(ttl, Do(ttl, s, Races.Begin(scope, hash)), Races.Read(i)), i, stamp)
  }

  // The call has ended with this table and outcome.
  ghost predicate EndsWith(s: Races.State, i: nat, t: Table, r: Outcome) {
    && |s.clients| == i + 1 && s.clients[i].phase.Done?
    && s.table == t && s.clients[i].phase.outcome == r
  }

  lemma AloneReads(ttl: int, s: Races.State, scope: Scope, hash: string)
    ensures
      var i := |s.clients|;
      var read := Do(ttl, Do(ttl, s, Races.Begin(scope, hash)), Races.Read(i));
      && |read.clients| == i + 1 && read.table == s.table && read.now == s.now
      && read.clients[i] == Races.Client(scope, hash,
           match Get(s.table, scope)
           case Some(id) => Races.Found(id, s.table.rows[id])
           case None => Races.Creating(s.now))
  {
  }

  lemma FinishCreating(ttl: int, s: Races.State, i: nat, stamp: int)
    requires |s.clients| == i + 1 && s.clients[i].phase == Races.Creating(s.now) && s.now <= stamp
    requires Get(s.table, s.clients[i].scope).None?
    ensures
      var t := Insert(s.table, NewRecord(s.clients[i].scope, s.clients[i].hash, ttl, stamp));
      EndsWith(Finish(ttl, s, i, stamp), i, t, Started(s.table.nextId))
  {
  }

  lemma FinishFound(ttl: int, s: Races.State, i: nat, id: nat, rec: Record, stamp: int)
    requires |s.clients| == i + 1 && s.clients[i].phase == Races.Found(id, rec) && s.now <= stamp
    ensures
      var (t, r) := Settled(s.table, id, rec, s.clients[i].hash, s.now, stamp);
      EndsWith(Finish(ttl, s, i, stamp), i, t, r)
  {
  }

  /** When nothing comes between its statements, a call of the race model is this Begin. */
  lemma AloneIsBegin(ttl: int, s: Races.State, x: Input, stamp: int)
    requires Acceptable(Normalized(x)) && s.now <= stamp
    ensures
      var (t, r) := BeginOn(ttl, s.table, x, s.now, stamp);
      EndsWith(Alone(ttl, s, ScopeOf(x), Normalized(x).hash, stamp), |s.clients|, t, r)
  {
    var i, scope, hash := |s.clients|, ScopeOf(x), Normalized(x).hash;
    var read := Do(ttl, Do(ttl, s, Races.Begin(scope, hash)), Races.Read(i));
    AloneReads(ttl, s, scope, hash);
    match Get(s.table, scope) {
      case None => FinishCreating(ttl, read, i, stamp);
      case Some(id) => FinishFound(ttl, read, i, id, s.table.rows[id], stamp);
    }
  }

  // The state with the table as other calls have left it.
  function Disturbed(s: Races.State, others: Option<Table>): Races.State {
    s.(table := Meanwhile(s.table, others))
  }

  // The call's second round after a duplicate.
  ghost function Again(
    ttl: int, s: Races.State, i: nat, later: Option<Table>, last: Option<Table>): Races.State
    requires i < |s.clients|
  {
    var read := Do(ttl, Disturbed(s, later), Races.Read(i));
    if read.clients[i].phase.Done? then read
    else Do(ttl, Disturbed(Do(ttl, read, Races.Judge(i)), last), Races.Restart(i, s.now))
  }

  // The rest of a call that has read, with other calls before its write.
  ghost function FinishAmid(
    ttl: int, s: Races.State, i: nat, others: Option<Table>, later: Option<Table>, last: Option<Table>): Races.State
    requires i < |s.clients|
  {
    var mid := Disturbed(Do(ttl, s, Races.Judge(i)), others);
    var written := Do(ttl, Do(ttl, mid, Races.Create(i, s.now)), Races.Restart(i, s.now));
    if written.clients[i].phase.Asking? then Again(ttl, written, i, later, last) else written
  }

  lemma AgainEnds(ttl: int, s: Races.State, i: nat, later: Option<Table>, last: Option<Table>)
    requires |s.clients| == i + 1 && s.clients[i].phase == Races.Asking(true)
    ensures
      var t, c := Meanwhile(s.table, later), s.clients[i];
      match Get(t, c.scope)
      case None => EndsWith(Again(ttl, s, i, later, last), i, t, Failed(NotFound))
      case Some(id) =>
        var (t', r) := Settled(Meanwhile(t, last), id, t.rows[id], c.hash, s.now, s.now);
        EndsWith(Again(ttl, s, i, later, last), i, t', r)
  {
  }

  lemma AmidFound(
    ttl: int, s: Races.State, i: nat, id: nat, rec: Record,
    others: Option<Table>, later: Option<Table>, last: Option<Table>)
    requires |s.clients| == i + 1 && s.clients[i].phase == Races.Found(id, rec)
    ensures
      var (t, r) := Settled(Meanwhile(s.table, others), id, rec, s.clients[i].hash, s.now, s.now);
      EndsWith(FinishAmid(ttl, s, i, others, later, last), i, t, r)
  {
  }

  lemma AmidCreating(
    ttl: int, s: Races.State, i: nat, others: Option<Table>, later: Option<Table>, last: Option<Table>)
    requires |s.clients| == i + 1 && s.clients[i].phase == Races.Creating(s.now)
    ensures
      var t, c := Meanwhile(s.table, others), s.clients[i];
      var s' := FinishAmid(ttl, s, i, others, later, last);
      if Get(t, c.scope).None? then
        EndsWith(s', i, Insert(t, NewRecord(c.scope, c.hash, ttl, s.now)), Started(t.nextId))
      else s' == Again(ttl, Races.Move(s.(table := t), i, Races.Asking(true)), i, later, last)
  {
  }

  /** With other calls between its statements, a call of the race model is Begin with the same calls in between. */
  lemma AmidIsBegin(
    ttl: int, s: Races.State, x: Input, others: Option<Table>, later: Option<Table>, last: Option<Table>)
    requires Acceptable(Normalized(x))
    ensures
      var i := |s.clients|;
      var read := Do(ttl, Do(ttl, s, Races.Begin(ScopeOf(x), Normalized(x).hash)), Races.Read(i));
      var (t, r) := BeginAmid(ttl, s.table, x, s.now, s.now, others, later, last);
      |read.clients| == i + 1 && EndsWith(FinishAmid(ttl, read, i, others, later, last), i, t, r)
  {
    var i, scope, hash := |s.clients|, ScopeOf(x), Normalized(x).hash;
    var read := Do(ttl, Do(ttl, s, Races.Begin(scope, hash)), Races.Read(i));
    AloneReads(ttl, s, scope, hash);
    match Get(s.table, scope) {
      case None =>
        AmidCreating(ttl, read, i, others, later, last);
        var t := Meanwhile(s.table, others);
        if Get(t, scope).Some? {
          AgainEnds(ttl, Races.Move(read.(table := t), i, Races.Asking(true)), i, later, last);
        }
      case Some(id) => AmidFound(ttl, read, i, id, s.table.rows[id], others, later, last);
    }
  }

  // ---------- Runs ----------

  datatype Op =
    | Begin(x: Input, check: int, stamp: int)
    | Finish(at: int, id: nat, code: int, body: string, sensitive: bool)
    | Gc(at: int, limit: int, ids: set<nat>)

  function First(op: Op): int {
    if op.Begin? then op.check else op.at
  }

  function Last(op: Op): int {
    if op.Begin? then op.stamp else op.at
  }

  ghost function Step(ttl: int, t: Table, op: Op): Table {
    match op
    case Begin(x, check, stamp) => BeginOn(ttl, t, x, check, stamp).0
    case Finish(_, id, code, body, sensitive) =>
      if CompletionValid(id, code) then Complete(t, id, code, body, sensitive) else t
    case Gc(at, limit, ids) => if GcChoice(t, at, limit, ids) then Delete(t, ids) else t
  }

  ghost function Run(ttl: int, ops: seq<Op>): Table {
    if ops == [] then EMPTY else Step(ttl, Run(ttl, ops[..|ops| - 1]), ops[|ops| - 1])
  }

  // What the i-th operation, a Begin, returns.
  ghost function Result(ttl: int, ops: seq<Op>, i: nat): Outcome
    requires i < |ops| && ops[i].Begin?
  {
    BeginOn(ttl, Run(ttl, ops[..i]), ops[i].x, ops[i].check, ops[i].stamp).1
  }

  // One operation ends before the next one starts.
  ghost predicate OneAtATime(ops: seq<Op>) {
    && (forall i | 0 <= i < |ops| :: First(ops[i]) <= Last(ops[i]))
    && (forall i, j | 0 <= i < j < |ops| :: Last(ops[i]) <= First(ops[j]))
  }

  // ---------- The table in every run ----------

  ghost predicate Sound(ttl: int, t: Table) {
    && Wf(t)
    && (forall id | id in t.rows :: t.rows[id].expiresAt == t.rows[id].createdAt + ttl)
    && (forall id | id in t.rows && t.rows[id].status.InProgress? :: t.rows[id].runningExpiresAt.Some?)
    && (forall id | id in t.rows && t.rows[id].status.Completed? :: t.rows[id].response.Some?)
  }

  lemma {:induction false} RunSound(ttl: int, ops: seq<Op>)
    ensures Sound(ttl, Run(ttl, ops))
  {
    if ops != [] {
      RunSound(ttl, ops[..|ops| - 1]);
      StepSound(ttl, Run(ttl, ops[..|ops| - 1]), ops[|ops| - 1]);
    }
  }

  lemma StepSound(ttl: int, t: Table, op: Op)
    requires Sound(ttl, t)
    ensures Sound(ttl, Step(ttl, t, op))
  {
    if op.Begin? {
      BeginSound(ttl, t, op);
    }
  }

  lemma BeginSound(ttl: int, t: Table, op: Op)
    requires Sound(ttl, t) && op.Begin?
    ensures Sound(ttl, Step(ttl, t, op))
  {
  }

  // What one operation may do to a row that exists before it.
  ghost predicate RowStep(t: Table, t': Table, op: Op, id: nat) {
    && (id in t'.rows ==> id in t.rows)
    && (id in t.rows && id !in t'.rows ==> op.Gc? && t.rows[id].expiresAt < op.at)
    && (id in t'.rows ==>
          var a, b := t.rows[id], t'.rows[id];
          && SameOrigin(a, b)
          && (!a.status.InProgress? ==> !b.status.InProgress?)
          && (!a.status.InProgress? && b != a ==> op.Finish? && op.id == id && CompletionValid(id, op.code))
          && (b.status.InProgress? ==>
                || b.runningExpiresAt == a.runningExpiresAt
                || (op.Begin? && b.runningExpiresAt == Some(op.stamp + RUNNING_TIMEOUT))))
  }

  ghost predicate SameOrigin(a: Record, b: Record) {
    a.scope == b.scope && a.hash == b.hash && a.createdAt == b.createdAt && a.expiresAt == b.expiresAt
  }

  ghost predicate Evolves(t: Table, t': Table, op: Op) {
    t.nextId <= t'.nextId && forall id: nat | id < t.nextId :: RowStep(t, t', op, id)
  }

  lemma StepEvolves(ttl: int, t: Table, op: Op)
    requires Sound(ttl, t)
    ensures Evolves(t, Step(ttl, t, op), op)
  {
    if op.Begin? {
      BeginEvolves(ttl, t, op);
    }
  }

  lemma BeginEvolves(ttl: int, t: Table, op: Op)
    requires Sound(ttl, t) && op.Begin?
    ensures Evolves(t, Step(ttl, t, op), op)
  {
  }

  // The tables of a run: before each operation, and after the last.
  ghost predicate Chain(ttl: int, ts: seq<Table>, ops: seq<Op>) {
    && |ts| == |ops| + 1
    && (forall k | 0 <= k < |ts| :: Sound(ttl, ts[k]))
    && (forall k | 0 <= k < |ops| :: Evolves(ts[k], ts[k + 1], ops[k]))
  }

  ghost function Tables(ttl: int, ops: seq<Op>): (ts: seq<Table>)
    ensures |ts| == |ops| + 1 && forall k | 0 <= k <= |ops| :: ts[k] == Run(ttl, ops[..k])
  {
    seq(|ops| + 1, k requires 0 <= k <= |ops| => Run(ttl, ops[..k]))
  }

  lemma Prefixes(ttl: int, ops: seq<Op>, k: nat)
    requires k < |ops|
    ensures Run(ttl, ops[..k + 1]) == Step(ttl, Run(ttl, ops[..k]), ops[k])
  {
    assert ops[..k + 1][..k] == ops[..k];
  }

  lemma TablesChain(ttl: int, ops: seq<Op>)
    ensures Chain(ttl, Tables(ttl, ops), ops)
  {
    var ts := Tables(ttl, ops);
    forall k | 0 <= k <= |ops|
      ensures Sound(ttl, ts[k])
    {
      RunSound(ttl, ops[..k]);
    }
    forall k | 0 <= k < |ops|
      ensures Evolves(ts[k], ts[k + 1], ops[k])
    {
      Prefixes(ttl, ops, k);
      StepEvolves(ttl, ts[k], ops[k]);
    }
  }

  // ---------- Rows along a chain ----------

  lemma {:induction false} IdsGrow(ttl: int, ts: seq<Table>, ops: seq<Op>, i: nat, j: nat)
    requires Chain(ttl, ts, ops) && i <= j < |ts|
    ensures ts[i].nextId <= ts[j].nextId
    decreases j
  {
    if i < j {
      IdsGrow(ttl, ts, ops, i, j - 1);
      assert Evolves(ts[j - 1], ts[j], ops[j - 1]);
    }
  }

  // A row that is there later was there all along, and keeps its origin.
  lemma {:induction false} RowsLast(ttl: int, ts: seq<Table>, ops: seq<Op>, i: nat, j: nat, id: nat)
    requires Chain(ttl, ts, ops) && i <= j < |ts|
    requires id < ts[i].nextId && id in ts[j].rows
    ensures id in ts[i].rows && SameOrigin(ts[i].rows[id], ts[j].rows[id])
    decreases j
  {
    if i < j {
      IdsGrow(ttl, ts, ops, i, j - 1);
      assert Evolves(ts[j - 1], ts[j], ops[j - 1]);
      assert RowStep(ts[j - 1], ts[j], ops[j - 1], id);
      RowsLast(ttl, ts, ops, i, j - 1, id);
    }
  }

  lemma {:induction false} YoungRowsLast(ttl: int, ts: seq<Table>, ops: seq<Op>, i: nat, j: nat, id: nat)
    requires Chain(ttl, ts, ops) && OneAtATime(ops) && i <= j < |ts|
    requires id in ts[i].rows
    requires i < j ==> Last(ops[j - 1]) <= ts[i].rows[id].createdAt + ttl
    ensures id in ts[j].rows
    decreases j
  {
    if i < j {
      YoungRowsLast(ttl, ts, ops, i, j - 1, id);
      assert id < ts[i].nextId;
      IdsGrow(ttl, ts, ops, i, j - 1);
      RowsLast(ttl, ts, ops, i, j - 1, id);
      assert ts[j - 1].rows[id].expiresAt == ts[i].rows[id].createdAt + ttl;
      assert Evolves(ts[j - 1], ts[j], ops[j - 1]);
      assert RowStep(ts[j - 1], ts[j], ops[j - 1], id);
    }
  }

  // The row has been completed, or its running deadline is at least `until`.
  ghost predicate BusyUntil(rec: Record, until: int) {
    rec.status.InProgress? ==> rec.runningExpiresAt.Some? && rec.runningExpiresAt.value >= until
  }

  lemma {:induction false} BusyRowsLast(ttl: int, ts: seq<Table>, ops: seq<Op>, i: nat, j: nat, id: nat, since: int)
    requires Chain(ttl, ts, ops) && OneAtATime(ops) && i <= j < |ts|
    requires id < ts[i].nextId && id in ts[j].rows
    requires id in ts[i].rows && BusyUntil(ts[i].rows[id], since + RUNNING_TIMEOUT)
    requires forall k | i <= k < |ops| :: since <= First(ops[k])
    ensures BusyUntil(ts[j].rows[id], since + RUNNING_TIMEOUT)
    decreases j
  {
    if i < j {
      IdsGrow(ttl, ts, ops, i, j - 1);
      assert Evolves(ts[j - 1], ts[j], ops[j - 1]);
      assert RowStep(ts[j - 1], ts[j], ops[j - 1], id);
      BusyRowsLast(ttl, ts, ops, i, j - 1, id, since);
    }
  }

  // The k-th operation would complete row `id`.
  ghost predicate Targets(op: Op, id: nat) {
    op.Finish? && op.id == id && id != 0 && 100 <= op.code <= 599
  }

  lemma {:induction false} CompletedRowsLast(ttl: int, ts: seq<Table>, ops: seq<Op>, i: nat, j: nat, id: nat)
    requires Chain(ttl, ts, ops) && i <= j < |ts|
    requires id < ts[i].nextId && id in ts[j].rows
    requires id in ts[i].rows && !ts[i].rows[id].status.InProgress?
    ensures !ts[j].rows[id].status.InProgress?
    ensures (forall k | i <= k < j :: !Targets(ops[k], id)) ==> ts[j].rows[id] == ts[i].rows[id]
    decreases j
  {
    if i < j {
      IdsGrow(ttl, ts, ops, i, j - 1);
      assert Evolves(ts[j - 1], ts[j], ops[j - 1]);
      assert RowStep(ts[j - 1], ts[j], ops[j - 1], id);
      CompletedRowsLast(ttl, ts, ops, i, j - 1, id);
      assert !Targets(ops[j - 1], id) ==> ts[j].rows[id] == ts[j - 1].rows[id];
    }
  }

  // ---------- Guarantees of runs ----------

  /** Garbage collection never removes a row within ttl of its creation, and rows keep their origin. */
  lemma YoungRowsStay(ttl: int, ops: seq<Op>, i: nat, j: nat, id: nat)
    requires OneAtATime(ops) && i < j <= |ops|
    requires id in Run(ttl, ops[..i]).rows
    requires Last(ops[j - 1]) <= Run(ttl, ops[..i]).rows[id].createdAt + ttl
    ensures id in Run(ttl, ops[..j]).rows && SameOrigin(Run(ttl, ops[..i]).rows[id], Run(ttl, ops[..j]).rows[id])
  {
    TablesChain(ttl, ops);
    var ts := Tables(ttl, ops);
    YoungRowsLast(ttl, ts, ops, i, j, id);
    RowsLast(ttl, ts, ops, i, j, id);
  }

  lemma BeginMakesBusy(ttl: int, t: Table, x: Input, check: int, stamp: int)
    requires Sound(ttl, t) && BeginOn(ttl, t, x, check, stamp).1.Started?
    ensures
      var (t', r) := BeginOn(ttl, t, x, check, stamp);
      && r.id in t'.rows && r.id < t'.nextId && t'.rows[r.id].scope == ScopeOf(x)
      && BusyUntil(t'.rows[r.id], stamp + RUNNING_TIMEOUT)
  {
  }

  lemma StartMakesBusy(ttl: int, ops: seq<Op>, i: nat)
    requires i < |ops| && ops[i].Begin? && Result(ttl, ops, i).Started?
    ensures
      var id, t := Result(ttl, ops, i).id, Run(ttl, ops[..i + 1]);
      && id in t.rows && id < t.nextId && t.rows[id].scope == ScopeOf(ops[i].x)
      && BusyUntil(t.rows[id], ops[i].stamp + RUNNING_TIMEOUT)
  {
    Prefixes(ttl, ops, i);
    RunSound(ttl, ops[..i]);
    BeginMakesBusy(ttl, Run(ttl, ops[..i]), ops[i].x, ops[i].check, ops[i].stamp);
  }

  // A start either takes a new id, or finds its row stale.
  lemma StartFinds(ttl: int, t: Table, x: Input, check: int, stamp: int)
    requires Sound(ttl, t) && BeginOn(ttl, t, x, check, stamp).1.Started?
    ensures
      var id := BeginOn(ttl, t, x, check, stamp).1.id;
      && (id < t.nextId ==> id in t.rows && t.rows[id].status.InProgress? && check > t.rows[id].runningExpiresAt.value)
      && (id == t.nextId ==> forall i | i in t.rows :: t.rows[i].scope != ScopeOf(x))
      && (id in t.rows ==> t.rows[id].scope == ScopeOf(x))
  {
  }

  /** Two starts on one row are more than the running timeout of 60 seconds apart. */
  lemma StartsAreSpaced(ttl: int, ops: seq<Op>, i: nat, j: nat)
    requires OneAtATime(ops) && i < j < |ops| && ops[i].Begin? && ops[j].Begin?
    requires Result(ttl, ops, i).Started? && Result(ttl, ops, j) == Result(ttl, ops, i)
    ensures ops[j].check > ops[i].stamp + 60 * 1_000_000_000
  {
    TablesChain(ttl, ops);
    var ts, id := Tables(ttl, ops), Result(ttl, ops, i).id;
    StartMakesBusy(ttl, ops, i);
    IdsGrow(ttl, ts, ops, i + 1, j);
    StartFinds(ttl, ts[j], ops[j].x, ops[j].check, ops[j].stamp);
    BusyRowsLast(ttl, ts, ops, i + 1, j, id, ops[i].stamp);
  }

  /** Two starts of one scope are starts on one row if and only if the row was not removed in between. */
  lemma SameScopeSameRow(ttl: int, ops: seq<Op>, i: nat, j: nat)
    requires i < j < |ops| && ops[i].Begin? && ops[j].Begin?
    requires ScopeOf(ops[i].x) == ScopeOf(ops[j].x)
    requires Result(ttl, ops, i).Started? && Result(ttl, ops, j).Started?
    ensures Result(ttl, ops, j) == Result(ttl, ops, i) <==> Result(ttl, ops, i).id in Run(ttl, ops[..j]).rows
  {
    TablesChain(ttl, ops);
    var ts, id := Tables(ttl, ops), Result(ttl, ops, i).id;
    StartMakesBusy(ttl, ops, i);
    IdsGrow(ttl, ts, ops, i + 1, j);
    StartFinds(ttl, ts[j], ops[j].x, ops[j].check, ops[j].stamp);
    if id in ts[j].rows {
      RowsLast(ttl, ts, ops, i + 1, j, id);
      SameScopeOneRow(ttl, ts[j], ops[j], id);
    }
  }

  lemma SameScopeOneRow(ttl: int, t: Table, op: Op, id: nat)
    requires Sound(ttl, t) && op.Begin? && id in t.rows && t.rows[id].scope == ScopeOf(op.x)
    requires BeginOn(ttl, t, op.x, op.check, op.stamp).1.Started?
    ensures BeginOn(ttl, t, op.x, op.check, op.stamp).1.id == id
  {
  }

  /**
   Within ttl of the creation of a scope's row, whatever is collected, every further
   start of that scope is a restart of that row, more than 60 seconds after any earlier one.
   */
  lemma StartsWithinTtl(ttl: int, ops: seq<Op>, i: nat, j: nat, created: int)
    requires OneAtATime(ops) && i < j < |ops| && ops[i].Begin? && ops[j].Begin?
    requires ScopeOf(ops[i].x) == ScopeOf(ops[j].x)
    requires Result(ttl, ops, i).Started? && Result(ttl, ops, j).Started?
    requires
      var id, rows := Result(ttl, ops, i).id, Run(ttl, ops[..i + 1]).rows;
      id in rows ==> rows[id].createdAt == created
    requires Last(ops[j]) <= created + ttl
    ensures Result(ttl, ops, j) == Result(ttl, ops, i) && ops[j].check > ops[i].stamp + 60 * 1_000_000_000
  {
    StartMakesBusy(ttl, ops, i);
    if i + 1 < j {
      YoungRowsStay(ttl, ops, i + 1, j, Result(ttl, ops, i).id);
    }
    SameScopeSameRow(ttl, ops, i, j);
    StartsAreSpaced(ttl, ops, i, j);
  }

  // ---------- Who is answered, and with what ----------

  /** An input is refused as invalid exactly for a missing tenant or principal or a text of wrong length or form. */
  lemma InvalidInputIff(ttl: int, t: Table, x: Input, check: int, stamp: int)
    ensures BeginOn(ttl, t, x, check, stamp).1 == Failed(InvalidInput) <==>
            || x.tenant == 0 || x.principal == 0
            || !(1 <= |Text.TrimSpace(x.key)| <= 128) || !(1 <= |Text.TrimSpace(x.method_)| <= 16)
            || !(1 <= |Text.TrimSpace(x.path)| <= 255) || !ValidHash(Text.TrimSpace(x.hash))
    ensures BeginOn(ttl, t, x, check, stamp).1 == Failed(InvalidInput) ==> BeginOn(ttl, t, x, check, stamp).0 == t
  {
    assert |Normalized(x).method_| == |Text.TrimSpace(x.method_)|;
  }

  lemma AnswerNamesRow(ttl: int, t: Table, x: Input, check: int, stamp: int)
    requires Sound(ttl, t) && !BeginOn(ttl, t, x, check, stamp).1.Failed?
    ensures
      var (t', r) := BeginOn(ttl, t, x, check, stamp);
      r.id in t'.rows && r.id < t'.nextId && t'.rows[r.id].scope == ScopeOf(x)
  {
  }

  // The row on which the k-th operation, a Begin, is started or replayed.
  ghost function AnsweredOn(ttl: int, ops: seq<Op>, k: nat): Option<nat>
    requires k < |ops|
  {
    if ops[k].Begin? && !Result(ttl, ops, k).Failed? then Some(Result(ttl, ops, k).id) else None
  }

  // The scope of a row.
  function RowScope(t: Table, id: nat): Option<Scope> {
    if id in t.rows && id < t.nextId then Some(t.rows[id].scope) else None
  }

  lemma AnswerInRun(ttl: int, ops: seq<Op>, k: nat, id: nat)
    requires k < |ops| && AnsweredOn(ttl, ops, k) == Some(id)
    ensures RowScope(Run(ttl, ops[..k + 1]), id) == Some(ScopeOf(ops[k].x))
  {
    Prefixes(ttl, ops, k);
    RunSound(ttl, ops[..k]);
    AnswerNamesRow(ttl, Run(ttl, ops[..k]), ops[k].x, ops[k].check, ops[k].stamp);
  }

  lemma RowKeepsScope(ttl: int, ops: seq<Op>, i: nat, j: nat, id: nat, a: Scope, b: Scope)
    requires i <= j <= |ops|
    requires RowScope(Run(ttl, ops[..i]), id) == Some(a) && RowScope(Run(ttl, ops[..j]), id) == Some(b)
    ensures a == b
  {
    TablesChain(ttl, ops);
    RowsLast(ttl, Tables(ttl, ops), ops, i, j, id);
  }

  // The calls answered on a row have the scope of the row.
  lemma AnswerOfRow(ttl: int, ops: seq<Op>, i: nat, j: nat, id: nat, scope: Scope)
    requires i <= j < |ops| && AnsweredOn(ttl, ops, j) == Some(id)
    requires RowScope(Run(ttl, ops[..i]), id) == Some(scope)
    ensures ScopeOf(ops[j].x) == scope
  {
    AnswerInRun(ttl, ops, j, id);
    RowKeepsScope(ttl, ops, i, j + 1, id, scope, ScopeOf(ops[j].x));
  }

  /** Two calls that are started or replayed on one row come from one caller. */
  lemma OneRowOneCaller(ttl: int, ops: seq<Op>, i: nat, j: nat, id: nat)
    requires i < j < |ops| && AnsweredOn(ttl, ops, i) == Some(id) && AnsweredOn(ttl, ops, j) == Some(id)
    ensures SameCaller(ops[i].x, ops[j].x)
  {
    AnswerInRun(ttl, ops, i, id);
    AnswerOfRow(ttl, ops, i + 1, j, id, ScopeOf(ops[i].x));
    ScopesAgreeIff(ops[i].x, ops[j].x);
  }

  // The k-th operation starts work on row `id`.
  ghost predicate Starts(ttl: int, ops: seq<Op>, k: nat, id: nat)
    requires k < |ops|
  {
    ops[k].Begin? && Result(ttl, ops, k) == Started(id)
  }

  lemma QuietStep(ttl: int, t: Table, op: Op, id: nat)
    requires Sound(ttl, t) && id < t.nextId && id in Step(ttl, t, op).rows && !Targets(op, id)
    requires op.Begin? ==> BeginOn(ttl, t, op.x, op.check, op.stamp).1 != Started(id)
    ensures id in t.rows && Step(ttl, t, op).rows[id] == t.rows[id]
  {
  }

  lemma QuietInRun(ttl: int, ops: seq<Op>, i: nat, k: nat, id: nat)
    requires i <= k < |ops| && id < Run(ttl, ops[..i]).nextId
    requires !Targets(ops[k], id) && !Starts(ttl, ops, k, id)
    ensures
      var t, t' := Run(ttl, ops[..k]), Run(ttl, ops[..k + 1]);
      id in t'.rows ==> id in t.rows && t'.rows[id] == t.rows[id]
  {
    var t := Run(ttl, ops[..k]);
    Prefixes(ttl, ops, k);
    RunSound(ttl, ops[..k]);
    NextIdGrows(ttl, ops, i, k);
    if id in Step(ttl, t, ops[k]).rows {
      QuietStep(ttl, t, ops[k], id);
    }
  }

  lemma NextIdGrows(ttl: int, ops: seq<Op>, i: nat, j: nat)
    requires i <= j <= |ops|
    ensures Run(ttl, ops[..i]).nextId <= Run(ttl, ops[..j]).nextId
  {
    TablesChain(ttl, ops);
    var ts := Tables(ttl, ops);
    assert ts[i] == Run(ttl, ops[..i]) && ts[j] == Run(ttl, ops[..j]);
    IdsGrow(ttl, ts, ops, i, j);
  }

  lemma {:induction false} RowFixed(ts: seq<Table>, i: nat, j: nat, id: nat)
    requires i <= j < |ts| && id in ts[j].rows
    requires forall k | i <= k < j :: id in ts[k + 1].rows ==> id in ts[k].rows && ts[k + 1].rows[id] == ts[k].rows[id]
    ensures id in ts[i].rows && ts[j].rows[id] == ts[i].rows[id]
    decreases j
  {
    if i < j {
      assert id in ts[j - 1 + 1].rows;
      RowFixed(ts, i, j - 1, id);
    }
  }

  // A row that no operation starts or completes stays as it is until it is collected.
  lemma QuietRowsLast(ttl: int, ops: seq<Op>, i: nat, j: nat, id: nat)
    requires i <= j <= |ops| && id < Run(ttl, ops[..i]).nextId && id in Run(ttl, ops[..j]).rows
    requires forall k: nat | i <= k < j :: !Targets(ops[k], id) && !Starts(ttl, ops, k, id)
    ensures id in Run(ttl, ops[..i]).rows && Run(ttl, ops[..j]).rows[id] == Run(ttl, ops[..i]).rows[id]
  {
    var ts := Tables(ttl, ops);
    assert ts[i] == Run(ttl, ops[..i]) && ts[j] == Run(ttl, ops[..j]);
    forall k: nat | i <= k < j
      ensures id in ts[k + 1].rows ==> id in ts[k].rows && ts[k + 1].rows[id] == ts[k].rows[id]
    {
      assert !Targets(ops[k], id) && !Starts(ttl, ops, k, id);
      QuietInRun(ttl, ops, i, k, id);
    }
    RowFixed(ts, i, j, id);
  }

  lemma StartLeaves(ttl: int, t: Table, x: Input, check: int, stamp: int)
    requires Sound(ttl, t) && BeginOn(ttl, t, x, check, stamp).1.Started?
    ensures
      var (t', r) := BeginOn(ttl, t, x, check, stamp);
      && r.id in t'.rows && r.id < t'.nextId && t'.rows[r.id].status.InProgress?
      && t'.rows[r.id].hash == Text.TrimSpace(x.hash)
      && t'.rows[r.id].runningExpiresAt == Some(stamp + RUNNING_TIMEOUT)
  {
  }

  lemma BeginOnRunning(ttl: int, t: Table, op: Op, id: nat)
    requires Sound(ttl, t) && op.Begin? && id in t.rows && t.rows[id].scope == ScopeOf(op.x)
    requires t.rows[id].status.InProgress? && Acceptable(Normalized(op.x))
    ensures BeginOn(ttl, t, op.x, op.check, op.stamp).1 ==
            if t.rows[id].hash != Text.TrimSpace(op.x.hash) then Failed(RequestMismatch)
            else if op.check <= t.rows[id].runningExpiresAt.value then Failed(RequestInProcess)
            else Started(id)
  {
  }

  /**
   While its row lives and is not completed, a Begin is answered by the latest start: refused as a
   mismatch for another hash, as in process for 60 seconds, and started again after that.
   */
  lemma LatestStartAnswers(ttl: int, ops: seq<Op>, i: nat, j: nat, id: nat)
    requires i < j < |ops| && Starts(ttl, ops, i, id) && ops[j].Begin?
    requires forall k: nat | i < k < j :: !Targets(ops[k], id) && !Starts(ttl, ops, k, id)
    requires id in Run(ttl, ops[..j]).rows && Run(ttl, ops[..j]).rows[id].scope == ScopeOf(ops[j].x)
    requires Acceptable(Normalized(ops[j].x))
    ensures Result(ttl, ops, j) ==
            if Text.TrimSpace(ops[j].x.hash) != Text.TrimSpace(ops[i].x.hash) then Failed(RequestMismatch)
            else if ops[j].check <= ops[i].stamp + 60 * 1_000_000_000 then Failed(RequestInProcess)
            else Started(id)
  {
    Prefixes(ttl, ops, i);
    RunSound(ttl, ops[..i]);
    RunSound(ttl, ops[..j]);
    StartLeaves(ttl, Run(ttl, ops[..i]), ops[i].x, ops[i].check, ops[i].stamp);
    QuietRowsLast(ttl, ops, i + 1, j, id);
    BeginOnRunning(ttl, Run(ttl, ops[..j]), ops[j], id);
  }

  // ---------- Replays ----------

  // The i-th operation completes row `id`.
  ghost predicate Completes(ttl: int, ops: seq<Op>, i: nat, id: nat)
    requires i < |ops|
  {
    Targets(ops[i], id) && id in Run(ttl, ops[..i]).rows
  }

  lemma CompletionEffect(ttl: int, ops: seq<Op>, i: nat, id: nat)
    requires i < |ops| && Completes(ttl, ops, i, id)
    ensures
      var t, t' := Run(ttl, ops[..i]), Run(ttl, ops[..i + 1]);
      && id < t'.nextId && id in t'.rows && t'.rows[id].hash == t.rows[id].hash
      && t'.rows[id].status == (if ops[i].sensitive then CompletedSensitive else Completed)
      && t'.rows[id].response == Some(Stored(ops[i].code, ops[i].body, ops[i].sensitive))
  {
    Prefixes(ttl, ops, i);
    RunSound(ttl, ops[..i]);
  }

  // The answer of Begin when the row of its scope is known.
  lemma BeginOnRow(ttl: int, t: Table, op: Op, id: nat)
    requires Sound(ttl, t) && op.Begin? && id in t.rows && t.rows[id].scope == ScopeOf(op.x)
    requires !t.rows[id].status.InProgress?
    ensures BeginOn(ttl, t, op.x, op.check, op.stamp).1 ==
            if !Acceptable(Normalized(op.x)) then Failed(InvalidInput)
            else Conclude(Decide(t.rows[id], Normalized(op.x).hash, op.check), id)
  {
  }

  lemma CompletedRowStays(ttl: int, ops: seq<Op>, i: nat, j: nat, id: nat)
    requires i < j < |ops| && Completes(ttl, ops, i, id)
    requires id in Run(ttl, ops[..j]).rows
    ensures !Run(ttl, ops[..j]).rows[id].status.InProgress?
  {
    TablesChain(ttl, ops);
    CompletionEffect(ttl, ops, i, id);
    CompletedRowsLast(ttl, Tables(ttl, ops), ops, i + 1, j, id);
  }

  /** While its row lives, no Begin on a completed scope starts the work again. */
  lemma NoStartAfterCompletion(ttl: int, ops: seq<Op>, i: nat, j: nat, id: nat)
    requires i < j < |ops| && Completes(ttl, ops, i, id) && ops[j].Begin?
    requires id in Run(ttl, ops[..j]).rows && Run(ttl, ops[..j]).rows[id].scope == ScopeOf(ops[j].x)
    ensures !Result(ttl, ops, j).Started?
  {
    CompletedRowStays(ttl, ops, i, j, id);
    RunSound(ttl, ops[..j]);
    BeginOnRow(ttl, Run(ttl, ops[..j]), ops[j], id);
  }

  // The row still is as the latest completion left it.
  lemma LatestCompletionLasts(ttl: int, ops: seq<Op>, i: nat, j: nat, id: nat)
    requires i < j < |ops| && Completes(ttl, ops, i, id)
    requires forall k | i < k < j :: !Targets(ops[k], id)
    requires id in Run(ttl, ops[..j]).rows
    ensures id in Run(ttl, ops[..i + 1]).rows && Run(ttl, ops[..j]).rows[id] == Run(ttl, ops[..i + 1]).rows[id]
  {
    TablesChain(ttl, ops);
    CompletionEffect(ttl, ops, i, id);
    CompletedRowsLast(ttl, Tables(ttl, ops), ops, i + 1, j, id);
  }

  /**
   While its row lives, a Begin is answered by the latest completion: replayed when the
   hash matches, refused when the response was sensitive or the hash differs.
   */
  lemma LatestCompletionAnswers(ttl: int, ops: seq<Op>, i: nat, j: nat, id: nat)
    requires i < j < |ops| && Completes(ttl, ops, i, id) && ops[j].Begin?
    requires forall k | i < k < j :: !Targets(ops[k], id)
    requires id in Run(ttl, ops[..j]).rows && Run(ttl, ops[..j]).rows[id].scope == ScopeOf(ops[j].x)
    requires Acceptable(Normalized(ops[j].x))
    ensures Result(ttl, ops, j) ==
            if Normalized(ops[j].x).hash != Run(ttl, ops[..i]).rows[id].hash then Failed(RequestMismatch)
            else if ops[i].sensitive then Failed(SensitiveResponse)
            else Replayed(id, Response(ops[i].code, ops[i].body))
  {
    CompletionEffect(ttl, ops, i, id);
    LatestCompletionLasts(ttl, ops, i, j, id);
    RunSound(ttl, ops[..j]);
    BeginOnRow(ttl, Run(ttl, ops[..j]), ops[j], id);
  }
}
