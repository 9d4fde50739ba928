/**
 The Redis locks of lock/ and runtimeguard/: a key holds the token of its owner, and
 release and renew act only on the owner's own token.  Tokens are fresh values;
 times are in milliseconds.
 */
module Lock {
  import opened Wrappers
  import opened Redis

  type Token = nat

  type Locks = Keyspace<string, Token>

  // ---------- The commands and scripts ----------

  // SET NX with an optional time to live.
  function Acquired(db: Locks, key: string, token: Token, ttl: Option<int>, now: int): (Locks, bool) {
    if Exists(db, key, now) then (db, false)
    else (Set(db, key, token, if ttl.Some? then Some(now + ttl.value) else None), true)
  }

  function Unlocked(db: Locks, key: string, token: Token, now: int): (Locks, bool) {
    if Get(db, key, now) == Some(token) then (db - {key}, true) else (db, false)
  }

  function Extended(db: Locks, key: string, token: Token, ttl: int, now: int): (Locks, bool) {
    if Get(db, key, now) == Some(token) then (Expire(db, key, ttl, now), true) else (db, false)
  }

  const NANOS_PER_MILLI := 1_000_000

  // A duration in whole milliseconds, at least one.
  function Millis(d: int): int {
    if d / NANOS_PER_MILLI <= 0 then 1 else d / NANOS_PER_MILLI
  }

  // After k milliseconds a time to live of `ttl` nanoseconds is not over; it lasts at least one millisecond.
  predicate LiveFor(k: int, ttl: int) {
    k <= 0 || (k + 1) * 1_000_000 <= ttl
  }

  lemma MillisIff(ttl: int, k: int)
    requires ttl > 0
    ensures k < Millis(ttl) <==> LiveFor(k, ttl)
  {
  }

  lemma MillisAll(ttl: int)
    requires ttl > 0
    ensures forall k :: k < Millis(ttl) <==> LiveFor(k, ttl)
  {
    forall k: int
      ensures k < Millis(ttl) <==> LiveFor(k, ttl)
    {
      MillisIff(ttl, k);
    }
  }

  // The entry of this key is the same.
  predicate SameEntry(a: Locks, b: Locks, key: string) {
    (key in a <==> key in b) && (key in a ==> a[key] == b[key])
  }

  datatype Error = NilClient | NoToken | EmptyKey | InvalidTtl | Locked | NotOwner | AlreadyReleased | RedisError

  // What the connection does to a script: nothing, or lose it before or after Redis ran it.
  datatype Fault = NoFault | LostBefore | LostAfter

  class Server {
    var db: Locks

    constructor ()
      ensures db == map[]
    {
      db := map[];
    }

    method RunUnlock(key: string, token: Token, now: int, fault: Fault) returns (res: Option<int>)
      modifies this
      ensures db == if fault.LostBefore? then old(db) else Unlocked(old(db), key, token, now).0
      ensures res == if fault.NoFault? then Some(if Get(old(db), key, now) == Some(token) then 1 else 0) else None
      ensures forall k | k != key || Get(old(db), key, now) != Some(token) :: SameEntry(db, old(db), k)
      ensures !fault.LostBefore? ==> Get(db, key, now) != Some(token)
    {
      if fault.LostBefore? {
        return None;
      }
      var n := 0;
      if Get(db, key, now) == Some(token) {
        db, n := db - {key}, 1;
      }
      return if fault.NoFault? then Some(n) else None;
    }

    method RunRenew(key: string, token: Token, ttl: int, now: int, fault: Fault) returns (res: Option<int>)
      modifies this
      ensures db == if fault.LostBefore? then old(db) else Extended(old(db), key, token, ttl, now).0
      ensures res == if fault.NoFault? then Some(if Get(old(db), key, now) == Some(token) then 1 else 0) else None
      ensures forall k | k != key || Get(old(db), key, now) != Some(token) :: SameEntry(db, old(db), k)
      ensures !fault.LostBefore? && Get(old(db), key, now) == Some(token) && ttl > 0 ==>
                forall t :: Get(db, key, t) == Some(token) <==> t < now + ttl
    {
      if fault.LostBefore? {
        return None;
      }
      var n := 0;
      if Get(db, key, now) == Some(token) {
        db, n := Expire(db, key, ttl, now), 1;
      }
      return if fault.NoFault? then Some(n) else None;
    }

    method SetNX(key: string, token: Token, ttl: Option<int>, now: int, fault: Fault) returns (res: Option<bool>)
      modifies this
      ensures db == if fault.LostBefore? then old(db) else Acquired(old(db), key, token, ttl, now).0
      ensures res == if fault.NoFault? then Some(!Exists(old(db), key, now)) else None
      ensures forall k | k != key || Exists(old(db), key, now) :: SameEntry(db, old(db), k)
      ensures !fault.LostBefore? && !Exists(old(db), key, now) ==>
                forall t :: Get(db, key, t) == Some(token) <==> (ttl.Some? ==> t < now + ttl.value)
    {
      if fault.LostBefore? {
        return None;
      }
      var ok := !Exists(db, key, now);
      if ok {
        db := Set(db, key, token, if ttl.Some? then Some(now + ttl.value) else None);
      }
      return if fault.NoFault? then Some(ok) else None;
    }
  }

  /**
   The distributed locker's Acquire, with its key prefix and, if it could be made, the token.
   When the connection is lost after Redis has run the command, the key is held by a token
   that no handle has.
   */
  method Acquire(
    server: Server?, prefix: string, key: string, ttl: int, token: Option<Token>, now: int, fault: Fault)
    returns (r: Result<LockHandle, Error>)
    modifies server
    ensures r.Err? && r.error.NilClient? <==> server == null
    ensures server != null && key == "" ==> r == Err(EmptyKey)
    ensures server != null && key != "" && ttl <= 0 ==> r == Err(InvalidTtl)
    ensures server != null && key != "" && ttl > 0 && token.None? ==> r == Err(NoToken)
    ensures server != null && (key == "" || ttl <= 0 || token.None? || fault.LostBefore?) ==>
              server.db == old(server.db)
    ensures server != null && key != "" && ttl > 0 && token.Some? ==>
              && (!fault.LostBefore? ==>
                    server.db == Acquired(old(server.db), prefix + key, token.value, Some(Millis(ttl)), now).0)
              && (if !fault.NoFault? then r == Err(RedisError)
                  else if Exists(old(server.db), prefix + key, now) then r == Err(Locked)
                  else r.Ok?)
    ensures r.Ok? ==>
              && server != null && token.Some? && fresh(r.value)
              && r.value.fullKey == prefix + key && r.value.token == token.value && !r.value.released
              && forall t :: Get(server.db, prefix + key, t) == token <==> LiveFor(t - now, ttl)
  {
    if server == null {
      return Err(NilClient);
    }
    if key == "" {
      return Err(EmptyKey);
    }
    if ttl <= 0 {
      return Err(InvalidTtl);
    }
    if token.None? {
      return Err(NoToken);
    }
    var ok := server.SetNX(prefix + key, token.value, Some(Millis(ttl)), now, fault);
    if ok.None? {
      return Err(RedisError);
    }
    if !ok.value {
      return Err(Locked);
    }
    MillisAll(ttl);
    var h := new LockHandle(prefix + key, token.value);
    return Ok(h);
  }

  class LockHandle {
    const fullKey: string
    const token: Token
    var released: bool

    constructor (fullKey: string, token: Token)
      ensures this.fullKey == fullKey && this.token == token && !released
    {
      this.fullKey, this.token, released := fullKey, token, false;
    }

    /**
     After a release without fault the handle's token is not live, whatever is reported.
     `others` is what other clients have made of the locks between flag check and script.
     */
    method Release(server: Server, now: int, fault: Fault, others: Option<Locks>) returns (err: Option<Error>)
      modifies this, server
      ensures old(released) ==> err == Some(AlreadyReleased) && released && server.db == old(server.db)
      ensures !old(released) ==>
                var db := if others.Some? then others.value else old(server.db);
                && released == fault.NoFault?
                && server.db == (if fault.LostBefore? then db else Unlocked(db, fullKey, token, now).0)
                && err == (if !fault.NoFault? then Some(RedisError)
                           else if Get(db, fullKey, now) == Some(token) then None else Some(NotOwner))
                && (!fault.LostBefore? ==> Get(server.db, fullKey, now) != Some(token))
    {
      if released {
        return Some(AlreadyReleased);
      }
      released := true;
      if others.Some? {
        server.db := others.value;
      }
      var res := server.RunUnlock(fullKey, token, now, fault);
      if res.None? {
        released := false;
        return Some(RedisError);
      }
      if res.value != 1 {
        return Some(NotOwner);
      }
      return None;
    }

    /**
     A renewal reported as done leaves the token live for exactly the given time, in
     nanoseconds, rounded to milliseconds.  `others` is as for Release.
     */
    method Renew(server: Server, ttl: int, now: int, fault: Fault, others: Option<Locks>) returns (err: Option<Error>)
      modifies server
      ensures ttl <= 0 ==> err == Some(InvalidTtl)
      ensures ttl > 0 && released ==> err == Some(AlreadyReleased)
      ensures ttl <= 0 || released ==> server.db == old(server.db)
      ensures ttl > 0 && !released ==>
                var db := if others.Some? then others.value else old(server.db);
                && server.db == (if fault.LostBefore? then db else Extended(db, fullKey, token, Millis(ttl), now).0)
                && err == (if !fault.NoFault? then Some(RedisError)
                           else if Get(db, fullKey, now) == Some(token) then None else Some(NotOwner))
      ensures err.None? ==> forall t :: Get(server.db, fullKey, t) == Some(token) <==> LiveFor(t - now, ttl)
    {
      if ttl <= 0 {
        return Some(InvalidTtl);
      }
      if released {
        return Some(AlreadyReleased);
      }
      var ms := ttl / NANOS_PER_MILLI;
      if ms <= 0 {
        ms := 1;
      }
      if others.Some? {
        server.db := others.value;
      }
      var res := server.RunRenew(fullKey, token, ms, now, fault);
      if res.None? {
        return Some(RedisError);
      }
      if res.value != 1 {
        return Some(NotOwner);
      }
      MillisAll(ttl);
      return None;
    }
  }

  // A guarded function: it counts its calls, and others change the locks while it runs.
  class Guarded<E> {
    var calls: nat
    const result: Result<(), E>
    const others: Option<Locks>

    constructor (result: Result<(), E>, others: Option<Locks>)
      ensures calls == 0 && this.result == result && this.others == others
    {
      calls, this.result, this.others := 0, result, others;
    }

    method Call(server: Server) returns (r: Result<(), E>)
      modifies this, server
      ensures calls == old(calls) + 1 && r == result
      ensures server.db == if others.Some? then others.value else old(server.db)
    {
      calls := calls + 1;
      if others.Some? {
        server.db := others.value;
      }
      return result;
    }
  }

  /**
   TryLock, the guarded function and the unlock of lock.go: the function runs once with the
   lock held and not at all otherwise, and its own error does not keep the lock.
   The inner result is that of the function.
   */
  method ExecuteWithLock<E>(
    server: Server, key: string, token: Token, ttl: Option<int>, now: int, fault: Fault,
    fn: Guarded<E>, end: int, unlockFault: Fault)
    returns (r: Result<Result<(), E>, Error>)
    modifies server, fn
    ensures r.Ok? <==> fault.NoFault? && !Exists(old(server.db), key, now)
    ensures fn.calls == old(fn.calls) + if r.Ok? then 1 else 0
    ensures r.Err? ==> r.error == if fault.NoFault? then Locked else RedisError
    ensures r.Err? ==>
              server.db == if fault.LostAfter? then Acquired(old(server.db), key, token, ttl, now).0 else old(server.db)
    ensures r.Ok? ==>
              var held := Acquired(old(server.db), key, token, ttl, now).0;
              var left := if fn.others.Some? then fn.others.value else held;
              && r.value == fn.result
              && server.db == (if unlockFault.LostBefore? then left else Unlocked(left, key, token, end).0)
              && (!unlockFault.LostBefore? ==> Get(server.db, key, end) != Some(token))
  {
    var ok := server.SetNX(key, token, ttl, now, fault);
    if ok.None? {
      return Err(RedisError);
    }
    if !ok.value {
      return Err(Locked);
    }
    var inner := fn.Call(server);
    var _ := server.RunUnlock(key, token, end, unlockFault);
    return Ok(inner);
  }

  // ---------- Many callers ----------

  // Owned handles come from the distributed locker; plain ones have no flag and no renewal.
  datatype Handle = Handle(owned: bool, key: string, token: Token, released: bool)

  datatype Answer = Done | Refused | Late | Broken

  // A call on a handle between its flag check and its script, or after both.
  datatype Call =
    | Unlocking(h: nat)
    | Renewing(h: nat, ttl: int)
    | Ended(h: nat, release: bool, answer: Answer)

  datatype State = State(db: Locks, now: int, used: set<Token>, handles: seq<Handle>, calls: seq<Call>)

  datatype Step =
    | Tick(to: int)
    | TryAcquire(owned: bool, key: string, token: Token, ttl: Option<int>, loss: Fault)
    | StartRelease(h: nat)
    | StartRenew(h: nat, millis: int)
    | Script(c: nat, fault: Fault)

  const INIT := State(map[], 0, {}, [], [])

  predicate Enabled(s: State, step: Step) {
    match step
    case Tick(to) => s.now <= to
    case TryAcquire(owned, key, token, ttl, _) =>
      && token !in s.used && (ttl.Some? ==> ttl.value > 0)
      && (owned ==> key != "" && ttl.Some?)
    case StartRelease(h) => h < |s.handles|
    case StartRenew(h, ttl) => h < |s.handles| && s.handles[h].owned && ttl > 0
    case Script(c, _) => c < |s.calls| && !s.calls[c].Ended? && s.calls[c].h < |s.handles|
  }

  // The effect of a pending call's script on the locks, and whether it found its token.
  function Effect(s: State, c: Call): (Locks, bool)
    requires !c.Ended? && c.h < |s.handles|
  {
    var h := s.handles[c.h];
    if c.Unlocking? then Unlocked(s.db, h.key, h.token, s.now) else Extended(s.db, h.key, h.token, c.ttl, s.now)
  }

  function Next(s: State, step: Step): State
    requires Enabled(s, step)
  {
    match step
    case Tick(to) => s.(now := to)
    case TryAcquire(owned, key, token, ttl, loss) =>
      var (db, ok) := Acquired(s.db, key, token, ttl, s.now);
      s.(db := if loss.LostBefore? then s.db else db, used := s.used + {token},
         handles := if ok && loss.NoFault? then s.handles + [Handle(owned, key, token, false)] else s.handles)
    case StartRelease(h) =>
      var handle := s.handles[h];
      if handle.owned && handle.released then s.(calls := s.calls + [Ended(h, true, Late)])
      else s.(handles := s.handles[h := handle.(released := handle.owned)], calls := s.calls + [Unlocking(h)])
    case StartRenew(h, ttl) =>
      s.(calls := s.calls + [if s.handles[h].released then Ended(h, false, Late) else Renewing(h, ttl)])
    case Script(c, fault) =>
      var call := s.calls[c];
      var (db, ok) := Effect(s, call);
      var answer := if !fault.NoFault? then Broken else if ok then Done else Refused;
      var reset := call.Unlocking? && !fault.NoFault?;
      s.(db := if fault.LostBefore? then s.db else db,
         handles := if reset then s.handles[call.h := s.handles[call.h].(released := false)] else s.handles,
         calls := s.calls[c := Ended(call.h, call.Unlocking?, answer)])
  }

  // The state after any sequence of steps; a step that is not enabled does nothing.
  function RunFrom(s: State, steps: seq<Step>): State {
    if steps == [] then s
    else
      var mid, step := RunFrom(s, steps[..|steps| - 1]), steps[|steps| - 1];
      if Enabled(mid, step) then Next(mid, step) else mid
  }

  function Run(steps: seq<Step>): State {
    RunFrom(INIT, steps)
  }

  // ---------- The methods as steps ----------

  function Do(s: State, step: Step): State {
    if Enabled(s, step) then Next(s, step) else s
  }

  /** An acquisition as the methods do it: a handle comes exactly from a free key and an answer that arrived. */
  lemma AcquireIsOneStep(s: State, owned: bool, key: string, token: Token, ttl: Option<int>, loss: Fault)
    requires Enabled(s, TryAcquire(owned, key, token, ttl, loss))
    ensures
      var s' := Next(s, TryAcquire(owned, key, token, ttl, loss));
      && s'.handles == (if loss.NoFault? && !Exists(s.db, key, s.now)
                        then s.handles + [Handle(owned, key, token, false)] else s.handles)
      && (forall k | k != key || Exists(s.db, key, s.now) || loss.LostBefore? :: SameEntry(s'.db, s.db, k))
      && (!Exists(s.db, key, s.now) && !loss.LostBefore? ==>
            forall t :: Get(s'.db, key, t) == Some(token) <==> (ttl.Some? ==> t < s.now + ttl.value))
  {
  }

  /** A Release with nothing between flag check and script, as the method of the handle does it. */
  lemma ReleaseIsTwoSteps(s: State, h: nat, fault: Fault)
    requires h < |s.handles| && s.handles[h].owned
    ensures
      var Handle(_, key, token, released) := s.handles[h];
      var c, s' := |s.calls|, Do(Do(s, StartRelease(h)), Script(|s.calls|, fault));
      && |s'.calls| == c + 1 && |s'.handles| == |s.handles|
      && s'.handles[h].released == (released || fault.NoFault?)
      && s'.db == (if released || fault.LostBefore? then s.db else Unlocked(s.db, key, token, s.now).0)
      && s'.calls[c] == Ended(h, true,
           if released then Late else if !fault.NoFault? then Broken
           else if Get(s.db, key, s.now) == Some(token) then Done else Refused)
  {
  }

  /** The same for a Renew. */
  lemma RenewIsTwoSteps(s: State, h: nat, ttl: int, fault: Fault)
    requires h < |s.handles| && s.handles[h].owned && ttl > 0
    ensures
      var Handle(_, key, token, released) := s.handles[h];
      var c, s' := |s.calls|, Do(Do(s, StartRenew(h, Millis(ttl))), Script(|s.calls|, fault));
      && |s'.calls| == c + 1 && s'.handles == s.handles
      && s'.db == (if released || fault.LostBefore? then s.db else Extended(s.db, key, token, Millis(ttl), s.now).0)
      && s'.calls[c] == Ended(h, false,
           if released then Late else if !fault.NoFault? then Broken
           else if Get(s.db, key, s.now) == Some(token) then Done else Refused)
  {
  }

  // ---------- The invariant ----------

  // The handle's token is the live value of its key.
  predicate Holds(s: State, h: nat)
    requires h < |s.handles|
  {
    Get(s.db, s.handles[h].key, s.now) == Some(s.handles[h].token)
  }

  // Releases of `h` that reported success.
  function Successes(calls: seq<Call>, h: nat): nat {
    if calls == [] then 0
    else Successes(calls[..|calls| - 1], h) + if calls[|calls| - 1] == Ended(h, true, Done) then 1 else 0
  }

  ghost predicate Inv(s: State) {
    && (forall i | 0 <= i < |s.handles| :: s.handles[i].token in s.used)
    && (forall i, j | 0 <= i < j < |s.handles| :: s.handles[i].token != s.handles[j].token)
    && (forall c | 0 <= c < |s.calls| :: s.calls[c].h < |s.handles|)
    && (forall h: nat {:trigger Successes(s.calls, h)} | h < |s.handles| ::
          Successes(s.calls, h) <= 1 && (Successes(s.calls, h) == 1 ==> !Holds(s, h)))
  }

  lemma {:induction false} SuccessesUpdate(calls: seq<Call>, c: nat, call: Call, h: nat)
    requires c < |calls| && !calls[c].Ended?
    ensures Successes(calls[c := call], h) == Successes(calls, h) + if call == Ended(h, true, Done) then 1 else 0
  {
    var last := |calls| - 1;
    if c == last {
      assert calls[c := call][..last] == calls[..last];
    } else {
      assert calls[c := call][..last] == calls[..last][c := call];
      SuccessesUpdate(calls[..last], c, call, h);
    }
  }

  // No handle has succeeded before it exists.
  lemma {:induction false} NoCallsNoSuccess(calls: seq<Call>, h: nat)
    requires forall c | 0 <= c < |calls| :: calls[c].h != h
    ensures Successes(calls, h) == 0
  {
    if calls != [] {
      NoCallsNoSuccess(calls[..|calls| - 1], h);
    }
  }

  // ---------- A script by one handle leaves the others alone ----------

  /** A script changes no entry but its own handle's, and that only while the handle holds it. */
  lemma ScriptTouchesOnlyItsOwn(s: State, c: nat, fault: Fault, key: string)
    requires Enabled(s, Script(c, fault))
    requires
      var h := s.handles[s.calls[c].h];
      key != h.key || Get(s.db, key, s.now) != Some(h.token)
    ensures
      var db := Next(s, Script(c, fault)).db;
      (key in db <==> key in s.db) && (key in db ==> db[key] == s.db[key])
  {
  }

  // What a step may do to the key of a handle that exists.
  lemma StepHolds(s: State, step: Step, h: nat)
    requires Inv(s) && Enabled(s, step) && h < |s.handles|
    ensures
      var s' := Next(s, step);
      && h < |s'.handles| && s'.handles[h].key == s.handles[h].key && s'.handles[h].token == s.handles[h].token
      && (Holds(s', h) ==> Holds(s, h))
      && (step.Script? && s.calls[step.c] == Unlocking(h) && !step.fault.LostBefore? ==> !Holds(s', h))
  {
  }

  lemma ScriptKeepsInv(s: State, c: nat, fault: Fault)
    requires Inv(s) && Enabled(s, Script(c, fault))
    ensures Inv(Next(s, Script(c, fault)))
  {
    var s' := Next(s, Script(c, fault));
    forall h: nat | h < |s'.handles|
      ensures Successes(s'.calls, h) <= 1 && (Successes(s'.calls, h) == 1 ==> !Holds(s', h))
    {
      SuccessesUpdate(s.calls, c, s'.calls[c], h);
      StepHolds(s, Script(c, fault), h);
      assert Successes(s.calls, h) <= 1 && (Successes(s.calls, h) == 1 ==> !Holds(s, h));
    }
  }

  // Steps that write no answer of a script add no success.
  lemma QuietKeepsSuccesses(s: State, step: Step, h: nat)
    requires Inv(s) && Enabled(s, step) && !step.Script? && h < |Next(s, step).handles|
    ensures Successes(Next(s, step).calls, h) <= 1
    ensures Successes(Next(s, step).calls, h) == 1 ==> h < |s.handles| && !Holds(s, h)
  {
    var calls' := Next(s, step).calls;
    assert calls' == s.calls || calls'[..|s.calls|] == s.calls;
    if h < |s.handles| {
      assert Successes(s.calls, h) <= 1 && (Successes(s.calls, h) == 1 ==> !Holds(s, h));
    } else {
      NoCallsNoSuccess(s.calls, h);
    }
  }

  lemma QuietKeepsHandles(s: State, step: Step)
    requires Inv(s) && Enabled(s, step) && !step.Script?
    ensures
      var s' := Next(s, step);
      && (forall i | 0 <= i < |s'.handles| :: s'.handles[i].token in s'.used)
      && (forall i, j | 0 <= i < j < |s'.handles| :: s'.handles[i].token != s'.handles[j].token)
      && (forall c | 0 <= c < |s'.calls| :: s'.calls[c].h < |s'.handles|)
  {
  }

  lemma StepKeepsInv(s: State, step: Step)
    requires Inv(s) && Enabled(s, step)
    ensures Inv(Next(s, step))
  {
    if step.Script? {
      ScriptKeepsInv(s, step.c, step.fault);
    } else {
      var s' := Next(s, step);
      QuietKeepsHandles(s, step);
      forall h: nat | h < |s'.handles|
        ensures Successes(s'.calls, h) <= 1 && (Successes(s'.calls, h) == 1 ==> !Holds(s', h))
      {
        QuietKeepsSuccesses(s, step, h);
        if h < |s.handles| {
          StepHolds(s, step, h);
        }
      }
    }
  }

  lemma {:induction false} RunKeepsInv(s: State, steps: seq<Step>)
    requires Inv(s)
    ensures Inv(RunFrom(s, steps))
  {
    if steps != [] {
      RunKeepsInv(s, steps[..|steps| - 1]);
      var mid, step := RunFrom(s, steps[..|steps| - 1]), steps[|steps| - 1];
      if Enabled(mid, step) {
        StepKeepsInv(mid, step);
      }
    }
  }

  lemma {:induction false} RunSplits(s: State, a: seq<Step>, b: seq<Step>)
    ensures RunFrom(s, a + b) == RunFrom(RunFrom(s, a), b)
  {
    if b == [] {
      assert a + b == a;
    } else {
      assert (a + b)[..|a + b| - 1] == a + b[..|b| - 1];
      RunSplits(s, a, b[..|b| - 1]);
    }
  }

  // ---------- Guarantees of every run ----------

  /** At most one handle holds a key. */
  lemma OneHolder(steps: seq<Step>, i: nat, j: nat)
    requires i < |Run(steps).handles| && j < |Run(steps).handles|
    requires Run(steps).handles[i].key == Run(steps).handles[j].key
    requires Holds(Run(steps), i) && Holds(Run(steps), j)
    ensures i == j
  {
    RunKeepsInv(INIT, steps);
  }

  /** At most one release of a handle reports success, and then its token is dead. */
  lemma OneSuccessfulRelease(steps: seq<Step>, h: nat)
    requires h < |Run(steps).handles|
    ensures Successes(Run(steps).calls, h) <= 1
    ensures Successes(Run(steps).calls, h) == 1 ==> !Holds(Run(steps), h)
  {
    RunKeepsInv(INIT, steps);
  }

  lemma {:induction false} DeadStays(s: State, steps: seq<Step>, h: nat)
    requires Inv(s) && h < |s.handles| && !Holds(s, h)
    ensures h < |RunFrom(s, steps).handles| && !Holds(RunFrom(s, steps), h)
  {
    if steps != [] {
      var init := steps[..|steps| - 1];
      DeadStays(s, init, h);
      RunKeepsInv(s, init);
      var mid, step := RunFrom(s, init), steps[|steps| - 1];
      if Enabled(mid, step) {
        StepHolds(mid, step, h);
      }
    }
  }

  /** A token that was released or has expired never becomes live again. */
  lemma DeadTokensStayDead(before: seq<Step>, after: seq<Step>, h: nat)
    requires h < |Run(before).handles| && !Holds(Run(before), h)
    ensures h < |Run(before + after).handles| && !Holds(Run(before + after), h)
  {
    RunKeepsInv(INIT, before);
    DeadStays(Run(before), after, h);
    RunSplits(INIT, before, after);
  }

  // No script of a call on `h` reaches Redis.
  ghost predicate Untouched(s: State, steps: seq<Step>, h: nat) {
    forall k | 0 <= k < |steps| && steps[k].Script? ::
      var mid := RunFrom(s, steps[..k]);
      Enabled(mid, steps[k]) ==> mid.calls[steps[k].c].h != h || steps[k].fault.LostBefore?
  }

  lemma StepLeavesHolder(s: State, step: Step, h: nat)
    requires Inv(s) && Enabled(s, step) && h < |s.handles| && Holds(s, h)
    requires step.Script? ==> s.calls[step.c].h != h || step.fault.LostBefore?
    ensures
      var s', key := Next(s, step), s.handles[h].key;
      h < |s'.handles| && s'.handles[h].key == key && s'.handles[h].token == s.handles[h].token
      && key in s'.db && s'.db[key] == s.db[key]
  {
  }

  lemma {:induction false} HolderStays(s: State, steps: seq<Step>, h: nat)
    requires Inv(s) && h < |s.handles| && Holds(s, h)
    requires Untouched(s, steps, h) && Live(s.db[s.handles[h].key], RunFrom(s, steps).now)
    ensures
      var s', key := RunFrom(s, steps), s.handles[h].key;
      h < |s'.handles| && s'.handles[h].key == key && Holds(s', h) && s'.db[key] == s.db[key]
  {
    if steps != [] {
      var init := steps[..|steps| - 1];
      var mid, step := RunFrom(s, init), steps[|steps| - 1];
      assert forall k | 0 <= k < |init| :: init[k] == steps[k] && init[..k] == steps[..k];
      assert mid.now <= RunFrom(s, steps).now;
      HolderStays(s, init, h);
      RunKeepsInv(s, init);
      if Enabled(mid, step) {
        StepLeavesHolder(mid, step, h);
      }
    }
  }

  /**
   Whatever all other callers do, a holder keeps its entry, deadline included, until the
   deadline passes or a script of its own runs.
   */
  lemma HolderKeepsLock(before: seq<Step>, after: seq<Step>, h: nat)
    requires h < |Run(before).handles| && Holds(Run(before), h)
    requires Untouched(Run(before), after, h)
    requires Live(Run(before).db[Run(before).handles[h].key], Run(before + after).now)
    ensures
      var s, s', key := Run(before), Run(before + after), Run(before).handles[h].key;
      && h < |s'.handles| && s'.handles[h].key == key && Holds(s', h)
      && s'.db[key] == s.db[key]
  {
    RunKeepsInv(INIT, before);
    RunSplits(INIT, before, after);
    HolderStays(Run(before), after, h);
  }

  /**
   A renewal that passed the flag check before a release of its handle reached Redis changes
   nothing, however late it runs its script, whatever happens in between.
   */
  lemma RenewAfterReleaseIsHarmless(
    before: seq<Step>, release: nat, fault: Fault, between: seq<Step>, renew: nat, renewFault: Fault)
    requires
      var s := Run(before);
      && Enabled(s, Script(release, fault)) && s.calls[release].Unlocking? && !fault.LostBefore?
      && var t := RunFrom(Next(s, Script(release, fault)), between);
         && Enabled(t, Script(renew, renewFault)) && t.calls[renew].Renewing?
         && t.calls[renew].h == s.calls[release].h
    ensures
      var t := RunFrom(Next(Run(before), Script(release, fault)), between);
      var u := Next(t, Script(renew, renewFault));
      u.db == t.db && u.calls[renew].answer == if renewFault.NoFault? then Refused else Broken
  {
    var s := Run(before);
    var h := s.calls[release].h;
    var r := Next(s, Script(release, fault));
    RunKeepsInv(INIT, before);
    StepHolds(s, Script(release, fault), h);
    StepKeepsInv(s, Script(release, fault));
    DeadStays(r, between, h);
  }
}
