/**
  The single flight of token exchanges: concurrent pulls that miss the same key elect one leader to run
  the exchange while the others wait for its result.

  A state machine over the steps between which other tasks may run.  The in-flight map is read and
  written under its lock; the election holds that lock while it consults the token cache, so it is two
  steps.  A leader may fail, time out or be cancelled while it exchanges, and a waiter while it waits.
  The cache is the value of `TokenCache`, with its real expiry and eviction.
*/
module TokenFlight {
  import opened Common
  import TC = TokenCache

  type Key = TC.Key
  type Token = TC.Text
  type TaskId = nat
  type FlightId = nat

  /** Where a task is in acquiring a token. */
  datatype Pc =
    | Idle
    /** Holds the in-flight lock, having found no slot. */
    | Electing
    | Waiting(flight: FlightId)
    /** Holds the slot, exchange running. */
    | Leading(flight: FlightId)
    /** Holds the slot, token issued and not yet retained. */
    | Issued(flight: FlightId, token: Token)
    /** Holds the slot, exchange over; no result after a failure, timeout or cancellation. */
    | Exchanged(flight: FlightId, result: Option<Token>)
    /** Slot released, sender still held. */
    | Released(flight: FlightId, result: Option<Token>)
    | Done(result: Option<Token>)

  datatype Task = Task(key: Key, identity: nat, rejected: Option<Token>, pc: Pc)

  datatype Status = Open | Sent(token: Token) | Closed

  /** A broadcast channel and the leader holding its sender. */
  datatype Flight = Flight(key: Key, owner: TaskId, status: Status)

  datatype State = State(
    tasks: map<TaskId, Task>,
    lock: Option<TaskId>,
    inflight: map<Key, FlightId>,
    flights: seq<Flight>,
    cache: TC.Cache,
    /** Every token an exchange obtained, with the key it was obtained for. */
    issued: set<(Key, Token)>)

  datatype Step =
    | Spawn(t: TaskId, key: Key, identity: nat, rejected: Option<Token>)
    | Enter(t: TaskId)
    | Decide(t: TaskId, now: int)
    | Issue(t: TaskId, token: Token)
    | Fail(t: TaskId)
    /** The token is cached, under the identity that obtained it, leaving `cache`. */
    | Retain(t: TaskId, identity: nat, expiresAt: int, now: int, cache: TC.Cache)
    /** The token's lifetime is not one to honour. */
    | Discard(t: TaskId)
    | Release(t: TaskId)
    | Finish(t: TaskId)
    | Receive(t: TaskId)
    | GiveUp(t: TaskId)
    /** Any other lookup, such as the one before the first attempt. */
    | Peek(key: Key, identity: nat, now: int)

  // ---------------------------------------------------------------------------------------------
  // Steps
  // ---------------------------------------------------------------------------------------------

  predicate Holds(pc: Pc, f: FlightId) {
    match pc
    case Leading(g) => f == g
    case Issued(g, _) => f == g
    case Exchanged(g, _) => f == g
    case _ => false
  }

  /** The task is between taking flight `f` and settling it. */
  predicate On(pc: Pc, f: FlightId) {
    Holds(pc, f) || (pc.Released? && pc.flight == f)
  }

  predicate At(s: State, t: TaskId) {
    t in s.tasks
  }

  function Goto(s: State, t: TaskId, pc: Pc): State
    requires At(s, t)
  {
    s.(tasks := s.tasks[t := s.tasks[t].(pc := pc)])
  }

  ghost predicate Enabled(s: State, step: Step) {
    match step
    case Spawn(t, _, _, _) => !At(s, t)
    case Enter(t) => At(s, t) && s.tasks[t].pc.Idle? && s.lock.None?
    case Decide(t, _) => At(s, t) && s.tasks[t].pc.Electing?
    case Issue(t, _) => At(s, t) && s.tasks[t].pc.Leading?
    case Fail(t) => At(s, t) && s.tasks[t].pc.Leading?
    case Retain(t, identity, expiresAt, now, cache) =>
      && At(s, t) && s.tasks[t].pc.Issued?
      && TC.Inserted(s.cache, s.tasks[t].key, identity, s.tasks[t].pc.token, expiresAt, now, cache)
    case Discard(t) => At(s, t) && s.tasks[t].pc.Issued?
    case Release(t) => At(s, t) && s.tasks[t].pc.Exchanged? && s.lock.None?
    case Finish(t) => At(s, t) && s.tasks[t].pc.Released? && s.tasks[t].pc.flight < |s.flights|
    case Receive(t) =>
      && At(s, t) && s.tasks[t].pc.Waiting? && s.tasks[t].pc.flight < |s.flights|
      && !s.flights[s.tasks[t].pc.flight].status.Open?
    case GiveUp(t) => At(s, t) && s.tasks[t].pc.Waiting?
    case Peek(_, _, _) => true
  }

  function DoEnter(s: State, t: TaskId): State
    requires At(s, t)
  {
    if s.tasks[t].key in s.inflight then
      Goto(s, t, Waiting(s.inflight[s.tasks[t].key]))
    else
      Goto(s, t, Electing).(lock := Some(t))
  }

  /** With no slot: hand out a cached token other than the rejected one, or take the slot and lead. */
  function DoDecide(s: State, t: TaskId, now: int): State
    requires At(s, t)
  {
    var task := s.tasks[t];
    var (cache, hit) := TC.Looked(s.cache, task.key, task.identity, now);
    if hit.Some? && hit != task.rejected then Serve(s, t, cache, hit.value) else Lead(s, t, cache)
  }

  /** A fresh channel already holding the cached token. */
  function Serve(s: State, t: TaskId, cache: TC.Cache, token: Token): State
    requires At(s, t)
  {
    Goto(s, t, Waiting(|s.flights|)).(lock := None, cache := cache,
      flights := s.flights + [Flight(s.tasks[t].key, t, Sent(token))])
  }

  function Lead(s: State, t: TaskId, cache: TC.Cache): State
    requires At(s, t)
  {
    Goto(s, t, Leading(|s.flights|)).(lock := None, cache := cache,
      flights := s.flights + [Flight(s.tasks[t].key, t, Open)],
      inflight := s.inflight[s.tasks[t].key := |s.flights|])
  }

  function DoRetain(s: State, t: TaskId, cache: TC.Cache): State
    requires At(s, t) && s.tasks[t].pc.Issued?
  {
    Goto(s, t, Exchanged(s.tasks[t].pc.flight, Some(s.tasks[t].pc.token))).(cache := cache)
  }

  function DoRelease(s: State, t: TaskId): State
    requires At(s, t) && s.tasks[t].pc.Exchanged?
  {
    Goto(s, t, Released(s.tasks[t].pc.flight, s.tasks[t].pc.result)).(inflight := s.inflight - {s.tasks[t].key})
  }

  function DoFinish(s: State, t: TaskId): State
    requires At(s, t) && s.tasks[t].pc.Released? && s.tasks[t].pc.flight < |s.flights|
  {
    var f, result := s.tasks[t].pc.flight, s.tasks[t].pc.result;
    var status := if result.Some? then Sent(result.value) else Closed;
    Goto(s, t, Done(result)).(flights := s.flights[f := s.flights[f].(status := status)])
  }

  function DoReceive(s: State, t: TaskId): State
    requires At(s, t) && s.tasks[t].pc.Waiting? && s.tasks[t].pc.flight < |s.flights|
  {
    var status := s.flights[s.tasks[t].pc.flight].status;
    if status.Sent? then Goto(s, t, Done(Some(status.token))) else Goto(s, t, Idle)
  }

  ghost function Do(s: State, step: Step): State
    requires Enabled(s, step)
  {
    match step
    case Spawn(t, key, identity, rejected) => s.(tasks := s.tasks[t := Task(key, identity, rejected, Idle)])
    case Enter(t) => DoEnter(s, t)
    case Decide(t, now) => DoDecide(s, t, now)
    case Issue(t, token) =>
      Goto(s, t, Issued(s.tasks[t].pc.flight, token)).(issued := s.issued + {(s.tasks[t].key, token)})
    case Fail(t) => Goto(s, t, Exchanged(s.tasks[t].pc.flight, None))
    case Retain(t, _, _, _, cache) => DoRetain(s, t, cache)
    case Discard(t) => DoRetain(s, t, s.cache)
    case Release(t) => DoRelease(s, t)
    case Finish(t) => DoFinish(s, t)
    case Receive(t) => DoReceive(s, t)
    case GiveUp(t) => Goto(s, t, Done(None))
    case Peek(key, identity, now) => s.(cache := TC.Looked(s.cache, key, identity, now).0)
  }

  ghost predicate Init(s: State) {
    s == State(map[], None, map[], [], TC.Cache(map[], 0), {})
  }

  // ---------------------------------------------------------------------------------------------
  // The invariant
  // ---------------------------------------------------------------------------------------------

  ghost predicate WasIssued(s: State, key: Key, token: Token) {
    (key, token) in s.issued
  }

  /** The cache has nothing for this credential but the token the caller saw rejected. */
  ghost predicate NothingUsable(cache: TC.Cache, key: Key, identity: nat, rejected: Option<Token>) {
    key in cache.entries && cache.entries[key].credentials == identity ==> rejected == Some(cache.entries[key].value)
  }

  ghost predicate Owns(s: State, t: TaskId, f: FlightId) {
    && At(s, t)
    && f < |s.flights| && s.flights[f].owner == t && s.flights[f].key == s.tasks[t].key
    && s.flights[f].status.Open?
  }

  ghost predicate HasSlot(s: State, key: Key, f: FlightId) {
    key in s.inflight && s.inflight[key] == f
  }

  ghost predicate TaskOk(s: State, t: TaskId)
    requires At(s, t)
  {
    var task := s.tasks[t];
    match task.pc
    case Idle => true
    case Electing => s.lock == Some(t) && task.key !in s.inflight
    case Waiting(f) => f < |s.flights| && s.flights[f].key == task.key
    case Leading(f) =>
      && Owns(s, t, f) && HasSlot(s, task.key, f)
      && NothingUsable(s.cache, task.key, task.identity, task.rejected)
    case Issued(f, token) => Owns(s, t, f) && HasSlot(s, task.key, f) && WasIssued(s, task.key, token)
    case Exchanged(f, result) =>
      && Owns(s, t, f) && HasSlot(s, task.key, f)
      && (result.Some? ==> WasIssued(s, task.key, result.value))
    case Released(f, result) =>
      && Owns(s, t, f) && !HasSlot(s, task.key, f)
      && (result.Some? ==> WasIssued(s, task.key, result.value))
    case Done(result) => result.Some? ==> WasIssued(s, task.key, result.value)
  }

  /** An open channel has a live leader that has yet to publish or close it. */
  ghost predicate FlightOk(s: State, f: FlightId)
    requires f < |s.flights|
  {
    var flight := s.flights[f];
    match flight.status
    case Open =>
      && At(s, flight.owner) && s.tasks[flight.owner].key == flight.key
      && On(s.tasks[flight.owner].pc, f)
    case Sent(token) => WasIssued(s, flight.key, token)
    case Closed => true
  }

  ghost predicate SlotOk(s: State, key: Key)
    requires key in s.inflight
  {
    var f := s.inflight[key];
    && f < |s.flights| && s.flights[f].key == key && s.flights[f].status.Open?
    && At(s, s.flights[f].owner) && Holds(s.tasks[s.flights[f].owner].pc, f)
  }

  ghost predicate Inv(s: State) {
    && (forall t :: At(s, t) ==> TaskOk(s, t))
    && (forall f :: 0 <= f < |s.flights| ==> FlightOk(s, f))
    && (forall key :: key in s.inflight ==> SlotOk(s, key))
    && (forall key :: key in s.cache.entries ==> WasIssued(s, key, s.cache.entries[key].value))
    && (s.lock.Some? ==> At(s, s.lock.value) && s.tasks[s.lock.value].pc.Electing?)
  }

  // ---------------------------------------------------------------------------------------------
  // Every step keeps it
  // ---------------------------------------------------------------------------------------------

  lemma LookedFrom(c: TC.Cache, key: Key, identity: nat, now: int)
    ensures var (d, hit) := TC.Looked(c, key, identity, now);
      && Shrunk(c, d)
      && (hit.Some? ==> key in c.entries && hit.value == c.entries[key].value)
      && (key in d.entries && d.entries[key].credentials == identity ==> hit == Some(d.entries[key].value))
  {
  }

  lemma InsertedFrom(c: TC.Cache, key: Key, identity: nat, token: Token, expiresAt: int, now: int, d: TC.Cache)
    requires TC.Inserted(c, key, identity, token, expiresAt, now, d)
    ensures forall k :: k in d.entries && k != key ==> k in c.entries && d.entries[k] == c.entries[k]
    ensures key in d.entries ==> d.entries[key].value == token && d.entries[key].credentials == identity
  {
    var m := TC.Added(c, key, identity, token, expiresAt, now);
    var t :| d.entries == TC.Newer(m, t);
  }

  /** The leader of a key is the only one, so what another key's leader caches does not concern it. */
  lemma OneLeader(s: State, t: TaskId, u: TaskId, f: FlightId, g: FlightId)
    requires Inv(s) && At(s, t) && At(s, u) && s.tasks[t].key == s.tasks[u].key
    requires Holds(s.tasks[t].pc, f) && Holds(s.tasks[u].pc, g)
    ensures t == u && f == g
  {
    assert TaskOk(s, t) && TaskOk(s, u);
  }

  lemma SpawnInv(s: State, t: TaskId, key: Key, identity: nat, rejected: Option<Token>)
    requires Inv(s) && Enabled(s, Spawn(t, key, identity, rejected))
    ensures Inv(Do(s, Spawn(t, key, identity, rejected)))
  {
    var n := Do(s, Spawn(t, key, identity, rejected));
    forall u | At(n, u) ensures TaskOk(n, u) {
      if u != t { assert TaskOk(s, u); }
    }
    forall f | 0 <= f < |n.flights| ensures FlightOk(n, f) {
      assert FlightOk(s, f);
    }
    forall k | k in n.inflight ensures SlotOk(n, k) {
      assert SlotOk(s, k);
    }
  }

  lemma EnterInv(s: State, t: TaskId)
    requires Inv(s) && Enabled(s, Enter(t))
    ensures Inv(DoEnter(s, t))
  {
    var n := DoEnter(s, t);
    assert TaskOk(s, t);
    if s.tasks[t].key in s.inflight { assert SlotOk(s, s.tasks[t].key); }
    forall u | At(n, u) ensures TaskOk(n, u) {
      if u != t { assert TaskOk(s, u); }
    }
    forall f | 0 <= f < |n.flights| ensures FlightOk(n, f) {
      assert FlightOk(s, f);
    }
    forall k | k in n.inflight ensures SlotOk(n, k) {
      assert SlotOk(s, k);
    }
  }

  /** `d` kept, of what `c` held, some entries with their tokens and identities. */
  ghost predicate Shrunk(c: TC.Cache, d: TC.Cache) {
    forall k :: k in d.entries ==>
      && k in c.entries
      && d.entries[k].value == c.entries[k].value
      && d.entries[k].credentials == c.entries[k].credentials
  }

  lemma ServeInv(s: State, t: TaskId, cache: TC.Cache, token: Token)
    requires Inv(s) && At(s, t) && s.tasks[t].pc.Electing?
    requires Shrunk(s.cache, cache) && WasIssued(s, s.tasks[t].key, token)
    ensures Inv(Serve(s, t, cache, token))
  {
    var n := Serve(s, t, cache, token);
    assert TaskOk(s, t);
    forall u | At(n, u) ensures TaskOk(n, u) {
      assert TaskOk(s, u);
    }
    forall f | 0 <= f < |n.flights| ensures FlightOk(n, f) {
      if f < |s.flights| { assert FlightOk(s, f); }
    }
    forall k | k in n.inflight ensures SlotOk(n, k) {
      assert SlotOk(s, k);
    }
  }

  lemma LeadInv(s: State, t: TaskId, cache: TC.Cache)
    requires Inv(s) && At(s, t) && s.tasks[t].pc.Electing? && Shrunk(s.cache, cache)
    requires NothingUsable(cache, s.tasks[t].key, s.tasks[t].identity, s.tasks[t].rejected)
    ensures Inv(Lead(s, t, cache))
  {
    var n := Lead(s, t, cache);
    assert TaskOk(s, t);
    forall u | At(n, u) ensures TaskOk(n, u) {
      assert TaskOk(s, u);
    }
    forall f | 0 <= f < |n.flights| ensures FlightOk(n, f) {
      if f < |s.flights| { assert FlightOk(s, f); }
    }
    forall k | k in n.inflight ensures SlotOk(n, k) {
      if k in s.inflight { assert SlotOk(s, k); }
    }
  }

  lemma DecideInv(s: State, t: TaskId, now: int)
    requires Inv(s) && Enabled(s, Decide(t, now))
    ensures Inv(DoDecide(s, t, now))
  {
    var task := s.tasks[t];
    var (cache, hit) := TC.Looked(s.cache, task.key, task.identity, now);
    LookedFrom(s.cache, task.key, task.identity, now);
    if hit.Some? && hit != task.rejected {
      ServeInv(s, t, cache, hit.value);
    } else {
      LeadInv(s, t, cache);
    }
  }

  /** Steps that move one leader on without touching channels or slots. */
  lemma LeaderInv(s: State, t: TaskId, n: State)
    requires Inv(s) && At(s, t)
    requires s.tasks[t].pc.Leading? || s.tasks[t].pc.Issued?
    requires n.lock == s.lock && n.inflight == s.inflight && n.flights == s.flights && s.issued <= n.issued
    requires At(n, t) && n.tasks == s.tasks[t := s.tasks[t].(pc := n.tasks[t].pc)]
    requires Holds(n.tasks[t].pc, s.tasks[t].pc.flight) && !n.tasks[t].pc.Leading?
    requires n.tasks[t].pc.Issued? ==> WasIssued(n, s.tasks[t].key, n.tasks[t].pc.token)
    requires n.tasks[t].pc.Exchanged? && n.tasks[t].pc.result.Some? ==>
      WasIssued(n, s.tasks[t].key, n.tasks[t].pc.result.value)
    requires forall k :: k in n.cache.entries ==> WasIssued(n, k, n.cache.entries[k].value)
    requires forall k :: k in n.cache.entries && k != s.tasks[t].key ==>
      k in s.cache.entries && n.cache.entries[k] == s.cache.entries[k]
    ensures Inv(n)
  {
    assert TaskOk(s, t);
    forall u | At(n, u) ensures TaskOk(n, u) {
      assert TaskOk(s, u);
      if u != t && s.tasks[u].pc.Leading? && s.tasks[u].key == s.tasks[t].key {
        OneLeader(s, t, u, s.tasks[t].pc.flight, s.tasks[u].pc.flight);
      }
    }
    forall f | 0 <= f < |n.flights| ensures FlightOk(n, f) {
      assert FlightOk(s, f);
    }
    forall k | k in n.inflight ensures SlotOk(n, k) {
      assert SlotOk(s, k);
    }
  }

  lemma RetainInv(s: State, t: TaskId, identity: nat, expiresAt: int, now: int, cache: TC.Cache)
    requires Inv(s) && Enabled(s, Retain(t, identity, expiresAt, now, cache))
    ensures Inv(DoRetain(s, t, cache))
  {
    assert TaskOk(s, t);
    InsertedFrom(s.cache, s.tasks[t].key, identity, s.tasks[t].pc.token, expiresAt, now, cache);
    LeaderInv(s, t, DoRetain(s, t, cache));
  }

  lemma ReleaseInv(s: State, t: TaskId)
    requires Inv(s) && Enabled(s, Release(t))
    ensures Inv(DoRelease(s, t))
  {
    var n := DoRelease(s, t);
    assert TaskOk(s, t);
    forall u | At(n, u) ensures TaskOk(n, u) {
      assert TaskOk(s, u);
    }
    forall f | 0 <= f < |n.flights| ensures FlightOk(n, f) {
      assert FlightOk(s, f);
    }
    forall k | k in n.inflight ensures SlotOk(n, k) {
      assert SlotOk(s, k);
    }
  }

  lemma FinishInv(s: State, t: TaskId)
    requires Inv(s) && Enabled(s, Finish(t))
    ensures Inv(DoFinish(s, t))
  {
    var n := DoFinish(s, t);
    assert TaskOk(s, t);
    forall u | At(n, u) ensures TaskOk(n, u) {
      assert TaskOk(s, u);
    }
    forall f | 0 <= f < |n.flights| ensures FlightOk(n, f) {
      assert FlightOk(s, f);
    }
    forall k | k in n.inflight ensures SlotOk(n, k) {
      assert SlotOk(s, k);
    }
  }

  lemma WaiterInv(s: State, t: TaskId, pc: Pc)
    requires Inv(s) && At(s, t) && s.tasks[t].pc.Waiting?
    requires pc.Idle? || (pc.Done? && (pc.result.Some? ==> WasIssued(s, s.tasks[t].key, pc.result.value)))
    ensures Inv(Goto(s, t, pc))
  {
    var n := Goto(s, t, pc);
    forall u | At(n, u) ensures TaskOk(n, u) {
      assert TaskOk(s, u);
    }
    forall f | 0 <= f < |n.flights| ensures FlightOk(n, f) {
      assert FlightOk(s, f);
    }
    forall k | k in n.inflight ensures SlotOk(n, k) {
      assert SlotOk(s, k);
    }
  }

  lemma PeekInv(s: State, key: Key, identity: nat, now: int)
    requires Inv(s)
    ensures Inv(Do(s, Peek(key, identity, now)))
  {
    var n := Do(s, Peek(key, identity, now));
    LookedFrom(s.cache, key, identity, now);
    forall u | At(n, u) ensures TaskOk(n, u) {
      assert TaskOk(s, u);
    }
    forall f | 0 <= f < |n.flights| ensures FlightOk(n, f) {
      assert FlightOk(s, f);
    }
    forall k | k in n.inflight ensures SlotOk(n, k) {
      assert SlotOk(s, k);
    }
  }

  lemma DoInv(s: State, step: Step)
    requires Inv(s) && Enabled(s, step)
    ensures Inv(Do(s, step))
  {
    hide Inv, TaskOk, FlightOk, SlotOk;
    match step
    case Spawn(t, key, identity, rejected) => SpawnInv(s, t, key, identity, rejected);
    case Enter(t) => EnterInv(s, t);
    case Decide(t, now) => DecideInv(s, t, now);
    case Issue(t, token) => IssueInv(s, t, token);
    case Fail(t) => FailInv(s, t);
    case Retain(t, identity, expiresAt, now, cache) => RetainInv(s, t, identity, expiresAt, now, cache);
    case Discard(t) => DiscardInv(s, t);
    case Release(t) => ReleaseInv(s, t);
    case Finish(t) => FinishInv(s, t);
    case Receive(t) => ReceiveInv(s, t);
    case GiveUp(t) => WaiterInv(s, t, Done(None));
    case Peek(key, identity, now) => PeekInv(s, key, identity, now);
  }

  lemma IssueInv(s: State, t: TaskId, token: Token)
    requires Inv(s) && Enabled(s, Issue(t, token))
    ensures Inv(Do(s, Issue(t, token)))
  {
    var n := Do(s, Issue(t, token));
    assert forall k :: k in n.cache.entries ==> WasIssued(s, k, n.cache.entries[k].value);
    LeaderInv(s, t, n);
  }

  lemma FailInv(s: State, t: TaskId)
    requires Inv(s) && Enabled(s, Fail(t))
    ensures Inv(Do(s, Fail(t)))
  {
    LeaderInv(s, t, Do(s, Fail(t)));
  }

  lemma DiscardInv(s: State, t: TaskId)
    requires Inv(s) && Enabled(s, Discard(t))
    ensures Inv(Do(s, Discard(t)))
  {
    assert TaskOk(s, t);
    LeaderInv(s, t, Do(s, Discard(t)));
  }

  lemma ReceiveInv(s: State, t: TaskId)
    requires Inv(s) && Enabled(s, Receive(t))
    ensures Inv(DoReceive(s, t))
  {
    assert TaskOk(s, t);
    assert FlightOk(s, s.tasks[t].pc.flight);
    var status := s.flights[s.tasks[t].pc.flight].status;
    WaiterInv(s, t, if status.Sent? then Done(Some(status.token)) else Idle);
  }

  // ---------------------------------------------------------------------------------------------
  // Every run
  // ---------------------------------------------------------------------------------------------

  ghost predicate StepAt(run: seq<State>, steps: seq<Step>, i: nat)
    requires i < |steps| && |run| == |steps| + 1
  {
    Enabled(run[i], steps[i]) && run[i + 1] == Do(run[i], steps[i])
  }

  ghost predicate Run(run: seq<State>, steps: seq<Step>) {
    && |run| == |steps| + 1 && Init(run[0])
    && forall i :: 0 <= i < |steps| ==> StepAt(run, steps, i)
  }

  lemma {:induction false} RunInv(run: seq<State>, steps: seq<Step>, i: nat)
    requires Run(run, steps) && i <= |steps|
    ensures Inv(run[i])
  {
    hide Do, Enabled;
    if i > 0 {
      RunInv(run, steps, i - 1);
      assert StepAt(run, steps, i - 1);
      DoInv(run[i - 1], steps[i - 1]);
    }
  }

  ghost predicate Leads(s: State, t: TaskId, key: Key) {
    At(s, t) && s.tasks[t].key == key && (s.tasks[t].pc.Leading? || s.tasks[t].pc.Issued? || s.tasks[t].pc.Exchanged?)
  }

  /** In every interleaving a slot exists exactly while a leader runs, and a key never has two leaders. */
  lemma SlotIffOneLeader(run: seq<State>, steps: seq<Step>, i: nat, key: Key)
    requires Run(run, steps) && i <= |steps|
    ensures key in run[i].inflight <==> exists t :: Leads(run[i], t, key)
    ensures forall t, u :: Leads(run[i], t, key) && Leads(run[i], u, key) ==> t == u
  {
    var s := run[i];
    RunInv(run, steps, i);
    forall t, u | Leads(s, t, key) && Leads(s, u, key) ensures t == u {
      OneLeader(s, t, u, s.tasks[t].pc.flight, s.tasks[u].pc.flight);
    }
    if key in s.inflight {
      assert SlotOk(s, key);
      var f := s.inflight[key];
      assert FlightOk(s, f);
      assert Leads(s, s.flights[f].owner, key);
    }
    if t :| Leads(s, t, key) {
      assert TaskOk(s, t);
    }
  }

  /**
    From election until the realm answers, no lookup at any time finds a token for the leader's
    credential other than the one it saw rejected.
  */
  lemma ExchangeIsNeeded(run: seq<State>, steps: seq<Step>, i: nat, t: TaskId, now: int)
    requires Run(run, steps) && i <= |steps| && At(run[i], t) && run[i].tasks[t].pc.Leading?
    ensures var task := run[i].tasks[t];
      var hit := TC.Looked(run[i].cache, task.key, task.identity, now).1;
      hit.Some? ==> hit == task.rejected
  {
    RunInv(run, steps, i);
    assert TaskOk(run[i], t);
  }

  /** Whatever a task returns was issued by an exchange for its own key. */
  lemma ResultWasIssued(run: seq<State>, steps: seq<Step>, i: nat, t: TaskId)
    requires Run(run, steps) && i <= |steps| && At(run[i], t)
    requires run[i].tasks[t].pc.Done? && run[i].tasks[t].pc.result.Some?
    ensures (run[i].tasks[t].key, run[i].tasks[t].pc.result.value) in run[i].issued
  {
    RunInv(run, steps, i);
    assert TaskOk(run[i], t);
  }

  /** How many steps a leader has left until its flight is settled. */
  function Left(pc: Pc): nat {
    match pc
    case Leading(_) => 4
    case Issued(_, _) => 3
    case Exchanged(_, _) => 2
    case Released(_, _) => 1
    case _ => 0
  }

  /** The task itself can take its next step. */
  ghost predicate CanMove(s: State, u: TaskId) {
    Enabled(s, Fail(u)) || Enabled(s, Discard(u)) || Enabled(s, Release(u)) || Enabled(s, Finish(u))
  }

  /**
    No waiter is stranded: its own flight is settled, or the task that owns it, a different one, is still on
    it and can take its next step, at worst once the holder of the lock has decided.
  */
  lemma NoWaiterStranded(run: seq<State>, steps: seq<Step>, i: nat, t: TaskId)
    requires Run(run, steps) && i <= |steps| && At(run[i], t) && run[i].tasks[t].pc.Waiting?
    ensures var s, f := run[i], run[i].tasks[t].pc.flight;
      && f < |s.flights| && s.flights[f].key == s.tasks[t].key
      && if !s.flights[f].status.Open? then Enabled(s, Receive(t)) else
         var u := s.flights[f].owner;
         && u != t && At(s, u) && s.tasks[u].key == s.tasks[t].key && On(s.tasks[u].pc, f)
         && (CanMove(s, u) || (s.tasks[u].pc.Exchanged? && s.lock.Some? && Enabled(s, Decide(s.lock.value, 0))))
  {
    RunInv(run, steps, i);
    assert TaskOk(run[i], t);
    assert FlightOk(run[i], run[i].tasks[t].pc.flight);
  }

  predicate Acts(step: Step, u: TaskId) {
    !step.Peek? && step.t == u
  }

  function ActsOf(steps: seq<Step>, u: TaskId): nat {
    if steps == [] then 0 else ActsOf(steps[..|steps| - 1], u) + if Acts(steps[|steps| - 1], u) then 1 else 0
  }

  /** Each step of a flight's owner brings it closer to settling the flight, and no other step sets it back. */
  lemma OwnerAdvances(s: State, step: Step, f: FlightId)
    requires Inv(s) && Enabled(s, step) && f < |s.flights| && s.flights[f].status.Open?
    ensures var n, u := Do(s, step), s.flights[f].owner;
      && f < |n.flights| && n.flights[f].owner == u && At(s, u) && At(n, u)
      && On(s.tasks[u].pc, f)
      && (n.flights[f].status.Open? ==>
        Left(n.tasks[u].pc) + (if Acts(step, u) then 1 else 0) <= Left(s.tasks[u].pc))
      && (Acts(step, u) && Left(s.tasks[u].pc) == 1 ==> !n.flights[f].status.Open?)
  {
    assert FlightOk(s, f);
    assert TaskOk(s, s.flights[f].owner);
  }

  /**
    While a flight is open its owner has taken at most three steps since it began to lead: the fourth settles
    it.  So a waiter's result is at most four steps of one named task away.
  */
  lemma {:induction false} SettledInFour(run: seq<State>, steps: seq<Step>, i: nat, j: nat, f: FlightId)
    requires Run(run, steps) && i <= j <= |steps|
    requires f < |run[i].flights| && run[i].flights[f].status.Open?
    ensures f < |run[j].flights| && run[j].flights[f].owner == run[i].flights[f].owner
    ensures run[j].flights[f].status.Open? ==>
      var u := run[i].flights[f].owner;
      && At(run[i], u) && At(run[j], u) && 1 <= Left(run[j].tasks[u].pc)
      && ActsOf(steps[i..j], u) + Left(run[j].tasks[u].pc) <= Left(run[i].tasks[u].pc) <= 4
    decreases j - i
  {
    hide Inv, Do, Enabled;
    var u := run[i].flights[f].owner;
    if i < j {
      SettledInFour(run, steps, i, j - 1, f);
      assert StepAt(run, steps, j - 1);
      RunInv(run, steps, j - 1);
      PublishedForGood(run, steps, j - 1, j, f);
      if run[j - 1].flights[f].status.Open? {
        OwnerAdvances(run[j - 1], steps[j - 1], f);
        assert steps[i..j][..|steps[i..j]| - 1] == steps[i..j - 1];
      }
      if run[j].flights[f].status.Open? { OwnerStands(run, steps, j, f); }
    } else {
      OwnerStands(run, steps, i, f);
    }
    OwnerKept(run, steps, i, j, f);
  }

  lemma OwnerStands(run: seq<State>, steps: seq<Step>, i: nat, f: FlightId)
    requires Run(run, steps) && i <= |steps| && f < |run[i].flights| && run[i].flights[f].status.Open?
    ensures At(run[i], run[i].flights[f].owner) && 1 <= Left(run[i].tasks[run[i].flights[f].owner].pc) <= 4
  {
    RunInv(run, steps, i);
    assert FlightOk(run[i], f);
  }

  lemma {:induction false} OwnerKept(run: seq<State>, steps: seq<Step>, i: nat, j: nat, f: FlightId)
    requires Run(run, steps) && i <= j <= |steps| && f < |run[i].flights|
    ensures f < |run[j].flights| && run[j].flights[f].owner == run[i].flights[f].owner
    decreases j - i
  {
    if i < j {
      OwnerKept(run, steps, i, j - 1, f);
      assert StepAt(run, steps, j - 1);
    }
  }

  /** A waiter on a flight gets exactly what its leader obtained: a published token never changes. */
  lemma {:induction false} PublishedForGood(run: seq<State>, steps: seq<Step>, i: nat, j: nat, f: FlightId)
    requires Run(run, steps) && i <= j <= |steps| && f < |run[i].flights|
    ensures f < |run[j].flights| && run[j].flights[f].key == run[i].flights[f].key
    ensures !run[i].flights[f].status.Open? ==> run[j].flights[f].status == run[i].flights[f].status
    decreases j - i
  {
    if i < j {
      PublishedForGood(run, steps, i, j - 1, f);
      assert StepAt(run, steps, j - 1);
      RunInv(run, steps, j - 1);
      if steps[j - 1].Finish? { assert TaskOk(run[j - 1], steps[j - 1].t); }
    }
  }

  // ---------------------------------------------------------------------------------------------
  // What each task returns
  // ---------------------------------------------------------------------------------------------

  /** A task that has returned stays as it is. */
  lemma {:induction false} DoneStays(run: seq<State>, steps: seq<Step>, i: nat, j: nat, t: TaskId)
    requires Run(run, steps) && i <= j <= |steps| && At(run[i], t) && run[i].tasks[t].pc.Done?
    ensures At(run[j], t) && run[j].tasks[t] == run[i].tasks[t]
    decreases j - i
  {
    if i < j {
      DoneStays(run, steps, i, j - 1, t);
      assert StepAt(run, steps, j - 1);
    }
  }

  /** A waiter that receives from a published flight returns that token for good; from a closed one it starts over. */
  lemma WaiterReceives(run: seq<State>, steps: seq<Step>, i: nat, j: nat, t: TaskId)
    requires Run(run, steps) && i < j <= |steps| && steps[i] == Receive(t)
    ensures At(run[i], t) && run[i].tasks[t].pc.Waiting? && run[i].tasks[t].pc.flight < |run[i].flights|
    ensures var status := run[i].flights[run[i].tasks[t].pc.flight].status;
      && !status.Open?
      && (status.Sent? ==> At(run[j], t) && run[j].tasks[t].pc == Done(Some(status.token)))
      && (status.Closed? ==> At(run[i + 1], t) && run[i + 1].tasks[t] == run[i].tasks[t].(pc := Idle))
  {
    assert StepAt(run, steps, i);
    if run[i].flights[run[i].tasks[t].pc.flight].status.Sent? {
      DoneStays(run, steps, i + 1, j, t);
    }
  }

  /**
    A waiter on a flight that comes to be published never starts over: it waits still, it has returned the
    published token, or it gave up.
  */
  lemma {:induction false} WaiterOutcome(run: seq<State>, steps: seq<Step>, i: nat, j: nat, t: TaskId, f: FlightId)
    requires Run(run, steps) && i <= j <= |steps| && At(run[i], t) && run[i].tasks[t].pc == Waiting(f)
    requires f < |run[i].flights| && f < |run[j].flights| && run[j].flights[f].status.Sent?
    ensures At(run[j], t)
    ensures var pc := run[j].tasks[t].pc;
      || pc == Waiting(f) || pc == Done(Some(run[j].flights[f].status.token))
      || (pc == Done(None) && exists m :: i <= m < j && steps[m] == GiveUp(t))
    decreases j - i
  {
    if i < j {
      assert StepAt(run, steps, i);
      PublishedForGood(run, steps, i, i + 1, f);
      PublishedForGood(run, steps, i, j, f);
      if run[i + 1].tasks[t].pc == Waiting(f) {
        WaiterOutcome(run, steps, i + 1, j, t, f);
      } else {
        DoneStays(run, steps, i + 1, j, t);
      }
    }
  }

  /** `t` ended the exchange of flight `f` with `result`, and whatever it has yet to do it will return and publish that. */
  ghost predicate Carries(s: State, t: TaskId, f: FlightId, result: Option<Token>) {
    At(s, t) && match s.tasks[t].pc
                case Issued(g, token) => g == f && result == Some(token)
                case Exchanged(g, r) => g == f && r == result
                case Released(g, r) => g == f && r == result
                case Done(r) =>
                  && r == result && f < |s.flights|
                  && s.flights[f].status == (if result.Some? then Sent(result.value) else Closed)
                case _ => false
  }

  lemma CarriesStep(s: State, step: Step, t: TaskId, f: FlightId, result: Option<Token>)
    requires Inv(s) && Enabled(s, step) && Carries(s, t, f, result)
    ensures Carries(Do(s, step), t, f, result)
  {
    assert TaskOk(s, t);
    if step.Finish? { assert TaskOk(s, step.t); }
  }

  /** From the end of the exchange on, the leader returns its result and its flight publishes the same. */
  lemma {:induction false} LeaderCarries(run: seq<State>, steps: seq<Step>, i: nat, j: nat, t: TaskId, f: FlightId,
                                         result: Option<Token>)
    requires Run(run, steps) && i <= j <= |steps| && Carries(run[i], t, f, result)
    ensures Carries(run[j], t, f, result)
    decreases j - i
  {
    hide Inv, Do, Enabled, Carries;
    if i < j {
      LeaderCarries(run, steps, i, j - 1, t, f, result);
      RunInv(run, steps, j - 1);
      assert StepAt(run, steps, j - 1);
      CarriesStep(run[j - 1], steps[j - 1], t, f, result);
    }
  }

  /**
    The leader returns the token the realm issued to it and its flight publishes that token; after a failure it
    returns nothing and its flight is closed.
  */
  lemma LeaderReturns(run: seq<State>, steps: seq<Step>, i: nat, j: nat, t: TaskId)
    requires Run(run, steps) && i < j <= |steps|
    requires (steps[i].Issue? || steps[i].Fail?) && steps[i].t == t
    ensures At(run[i], t) && run[i].tasks[t].pc.Leading?
    ensures At(run[j], t) && run[i].tasks[t].pc.flight < |run[j].flights|
    ensures run[j].tasks[t].pc.Done? ==>
      var status, result := run[j].flights[run[i].tasks[t].pc.flight].status, run[j].tasks[t].pc.result;
      if steps[i].Issue? then result == Some(steps[i].token) && status == Sent(steps[i].token)
      else result == None && status == Closed
  {
    assert StepAt(run, steps, i);
    RunInv(run, steps, i);
    assert TaskOk(run[i], t);
    var f := run[i].tasks[t].pc.flight;
    LeaderCarries(run, steps, i + 1, j, t, f, if steps[i].Issue? then Some(steps[i].token) else None);
    OwnerKept(run, steps, i, j, f);
  }

  /** A task that finds a slot for its key waits on that very flight; one that finds none goes on to elect, alone. */
  lemma EnterOutcome(run: seq<State>, steps: seq<Step>, i: nat, t: TaskId)
    requires Run(run, steps) && i < |steps| && steps[i] == Enter(t)
    ensures At(run[i], t) && At(run[i + 1], t) && run[i].lock == None
    ensures var s, n, key := run[i], run[i + 1], run[i].tasks[t].key;
      && n.flights == s.flights && n.inflight == s.inflight && n.cache == s.cache
      && (key in s.inflight ==> n.tasks[t].pc == Waiting(s.inflight[key]) && n.lock == None)
      && (key !in s.inflight ==> n.tasks[t].pc == Electing && n.lock == Some(t))
  {
    assert StepAt(run, steps, i);
  }

  /** The cache holds a live token for this credential, and not the one the caller saw rejected. */
  ghost predicate Usable(s: State, t: TaskId, now: int)
    requires At(s, t)
  {
    var task := s.tasks[t];
    && task.key in s.cache.entries
    && var e := s.cache.entries[task.key];
       e.expiresAt > now && e.credentials == task.identity && task.rejected != Some(e.value)
  }

  /**
    With no slot for its key, a task is handed the cached token if one is usable, on a flight of its own that
    already holds it; otherwise it takes the slot and leads on a new open flight.
  */
  lemma DecideOutcome(run: seq<State>, steps: seq<Step>, i: nat, t: TaskId, now: int)
    requires Run(run, steps) && i < |steps| && steps[i] == Decide(t, now)
    ensures At(run[i], t) && At(run[i + 1], t)
    ensures var s, n, key := run[i], run[i + 1], run[i].tasks[t].key;
      && key !in s.inflight && n.lock == None && |n.flights| == |s.flights| + 1
      && if Usable(s, t, now) then
           && n.tasks[t].pc == Waiting(|s.flights|) && n.inflight == s.inflight
           && n.flights[|s.flights|].status == Sent(s.cache.entries[key].value)
         else
           && n.tasks[t].pc == Leading(|s.flights|) && n.inflight == s.inflight[key := |s.flights|]
           && n.flights[|s.flights|].status == Open && n.flights[|s.flights|].owner == t
  {
    assert StepAt(run, steps, i);
    RunInv(run, steps, i);
    assert TaskOk(run[i], t);
    TC.LookupDropsIff(run[i].cache, run[i].tasks[t].key, run[i].tasks[t].identity, now);
  }

  /** The cache is within its budgets in every run. */
  lemma {:induction false} CacheFits(run: seq<State>, steps: seq<Step>, i: nat)
    requires Run(run, steps) && i <= |steps|
    ensures TC.Fits(run[i].cache)
  {
    hide Do, Enabled, TC.Fits;
    TC.EmptyFits();
    if i > 0 {
      CacheFits(run, steps, i - 1);
      assert StepAt(run, steps, i - 1);
      CacheStepFits(run[i - 1], steps[i - 1]);
    }
  }

  lemma CacheStepFits(s: State, step: Step)
    requires Enabled(s, step) && TC.Fits(s.cache)
    ensures TC.Fits(Do(s, step).cache)
  {
    hide TC.Fits, TC.Looked, TC.Inserted;
    match step
    case Decide(t, now) => TC.LookedFits(s.cache, s.tasks[t].key, s.tasks[t].identity, now);
    case Retain(t, identity, expiresAt, now, cache) =>
      TC.InsertedFits(s.cache, s.tasks[t].key, identity, s.tasks[t].pc.token, expiresAt, now, cache);
    case Peek(key, identity, now) => TC.LookedFits(s.cache, key, identity, now);
    case _ =>
  }

  /** A token retained and small enough for the byte budget is what the next lookup before its deadline finds. */
  lemma RetainedIsFound(run: seq<State>, steps: seq<Step>, i: nat, t: TaskId, later: int)
    requires Run(run, steps) && i < |steps| && steps[i].Retain? && steps[i].t == t && later < steps[i].expiresAt
    ensures At(run[i], t) && run[i].tasks[t].pc.Issued?
    ensures var key, token := run[i].tasks[t].key, run[i].tasks[t].pc.token;
      |key.base| + |key.scope| + |token| <= 2097152 ==>
        TC.Looked(run[i + 1].cache, key, steps[i].identity, later).1 == Some(token)
  {
    hide TC.Fits, TC.Looked, TC.Inserted;
    assert StepAt(run, steps, i);
    CacheFits(run, steps, i);
    var s, step := run[i], steps[i];
    var key, token := s.tasks[t].key, s.tasks[t].pc.token;
    TC.InsertSurvivesIff(s.cache, key, step.identity, token, step.expiresAt, step.now, step.cache);
    TC.LookupDropsIff(step.cache, key, step.identity, later);
  }
}
