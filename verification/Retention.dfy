/**
  Retention plans: the callback protocol between a plan and the driver that scans a snapshot, the pages it
  cuts, and the per-repository gate.

  A driver is seen through the callbacks it makes, an opened snapshot or a decision each, and the outcome
  it returns; nothing is assumed of it unless it is said to be obedient.  The cursor's encoding is left
  out: a cursor is the offset and identity it carries.
*/
module Retention {
  import opened Common

  datatype Summary = Summary(policy: nat, frontier: nat)

  type Decision = nat

  datatype Event = Open(summary: Summary) | Decide(decision: Decision)

  datatype Cursor = Cursor(after: nat, summary: Summary)

  datatype Query = Query(after: nat, limit: Option<nat>, identity: Option<Summary>)

  datatype StartStop = Stale(expected: Summary, current: Summary) | StartInterrupted(reason: string) | MoreThanOne

  datatype Stop = Full | Interrupted(reason: string)

  datatype PlanError =
    | StalePlan(expected: Summary, current: Summary)
    | PlanInterrupted(reason: string)
    | StoreError(reason: string)

  datatype Page = Page(summary: Summary, nextCursor: Option<Cursor>, emitted: nat)

  /** How the caller's callbacks answer: `start` at most once, `emit` by call number.  No reason is consent. */
  datatype Caller = Caller(start: Option<string>, emit: nat -> Option<string>)

  /** What the callbacks share, and what they have passed on to the caller. */
  datatype Scan = Scan(
    summary: Option<Summary>, startStop: Option<StartStop>, started: bool, protocolError: bool,
    emitted: nat, stop: Option<Stop>,
    begun: seq<Summary>, delivered: seq<Decision>, asked: nat)

  const NEW_SCAN := Scan(None, None, false, false, 0, None, [], [], 0)

  /** The snapshot callback; false tells the driver to halt. */
  function Opened(q: Query, caller: Caller, s: Scan, current: Summary): (Scan, bool) {
    if s.started then
      (s.(startStop := Some(MoreThanOne)), false)
    else if q.identity.Some? && q.identity.value != current then
      (s.(started := true, startStop := Some(Stale(q.identity.value, current))), false)
    else if caller.start.Some? then
      (s.(started := true, begun := s.begun + [current], startStop := Some(StartInterrupted(caller.start.value))), false)
    else
      (s.(started := true, begun := s.begun + [current], summary := Some(current)), true)
  }

  /** The decision callback. */
  function Decided(q: Query, caller: Caller, s: Scan, d: Decision): (Scan, bool) {
    if !s.started then
      (s.(protocolError := true), false)
    else if q.limit.Some? && s.emitted >= q.limit.value then
      (s.(stop := Some(Full)), false)
    else if caller.emit(s.asked).Some? then
      (s.(asked := s.asked + 1, stop := Some(Interrupted(caller.emit(s.asked).value))), false)
    else
      (s.(asked := s.asked + 1, delivered := s.delivered + [d], emitted := s.emitted + 1), true)
  }

  function Called(q: Query, caller: Caller, s: Scan, e: Event): (Scan, bool) {
    match e
    case Open(summary) => Opened(q, caller, s, summary)
    case Decide(d) => Decided(q, caller, s, d)
  }

  /** What the plan reports, from the shared state and the driver's outcome. */
  function Concluded(q: Query, s: Scan, outcome: Result<(), string>, cancelled: bool): Result<Page, PlanError> {
    if cancelled then Err(PlanInterrupted("request cancelled"))
    else if s.startStop.Some? then
      match s.startStop.value {
        case Stale(expected, current) => Err(StalePlan(expected, current))
        case StartInterrupted(reason) => Err(PlanInterrupted(reason))
        case MoreThanOne => Err(StoreError("the retention driver opened more than one snapshot"))
      }
    else if s.protocolError then
      Err(StoreError("the retention driver emitted a decision before opening a snapshot"))
    else if s.summary.None? then
      Err(StoreError(if outcome.Err? then outcome.error else "the retention driver returned without opening a snapshot"))
    else if s.stop.Some? && s.stop.value.Interrupted? then Err(PlanInterrupted(s.stop.value.reason))
    else if outcome.Ok? then Ok(Page(s.summary.value, None, s.emitted))
    else if s.stop.Some? then
      Ok(Page(s.summary.value, Some(Cursor(q.after + s.emitted, s.summary.value)), s.emitted))
    else Err(StoreError(outcome.error))
  }

  /** The state after all of a driver's callbacks. */
  function Scanned(q: Query, caller: Caller, trace: seq<Event>): Scan {
    if trace == [] then NEW_SCAN
    else Called(q, caller, Scanned(q, caller, trace[..|trace| - 1]), trace[|trace| - 1]).0
  }

  // ---------------------------------------------------------------------------------------------
  // The plan in place
  // ---------------------------------------------------------------------------------------------

  class Plan {
    const query: Query
    const caller: Caller
    var summary: Option<Summary>
    var startStop: Option<StartStop>
    var started: bool
    var protocolError: bool
    var emitted: nat
    var stop: Option<Stop>
    var begun: seq<Summary>
    var delivered: seq<Decision>
    var asked: nat

    ghost function Value(): Scan
      reads this
    {
      Scan(summary, startStop, started, protocolError, emitted, stop, begun, delivered, asked)
    }

    constructor (query: Query, caller: Caller)
      ensures this.query == query && this.caller == caller && Value() == NEW_SCAN
    {
      this.query, this.caller := query, caller;
      summary, startStop, started, protocolError, emitted, stop := None, None, false, false, 0, None;
      begun, delivered, asked := [], [], 0;
    }

    method OnOpen(current: Summary) returns (ok: bool)
      modifies this
      ensures (Value(), ok) == Opened(query, caller, old(Value()), current)
    {
      if started {
        startStop := Some(MoreThanOne);
        return false;
      }
      started := true;
      if query.identity.Some? && query.identity.value != current {
        startStop := Some(Stale(query.identity.value, current));
        return false;
      }
      begun := begun + [current];
      if caller.start.Some? {
        startStop := Some(StartInterrupted(caller.start.value));
        return false;
      }
      summary := Some(current);
      ok := true;
    }

    method OnDecision(d: Decision) returns (ok: bool)
      modifies this
      ensures (Value(), ok) == Decided(query, caller, old(Value()), d)
    {
      if !started {
        protocolError := true;
        return false;
      }
      if query.limit.Some? && emitted >= query.limit.value {
        stop := Some(Full);
        return false;
      }
      var reply := caller.emit(asked);
      asked := asked + 1;
      if reply.Some? {
        stop := Some(Interrupted(reply.value));
        return false;
      }
      delivered := delivered + [d];
      emitted := emitted + 1;
      ok := true;
    }

    method Conclude(outcome: Result<(), string>, cancelled: bool) returns (r: Result<Page, PlanError>)
      ensures r == Concluded(query, Value(), outcome, cancelled)
    {
      if cancelled { return Err(PlanInterrupted("request cancelled")); }
      match startStop {
        case Some(Stale(expected, current)) => return Err(StalePlan(expected, current));
        case Some(StartInterrupted(reason)) => return Err(PlanInterrupted(reason));
        case Some(MoreThanOne) => return Err(StoreError("the retention driver opened more than one snapshot"));
        case None =>
      }
      if protocolError {
        return Err(StoreError("the retention driver emitted a decision before opening a snapshot"));
      }
      if summary.None? {
        return Err(StoreError(
          if outcome.Err? then outcome.error else "the retention driver returned without opening a snapshot"));
      }
      match (outcome, stop) {
        case (_, Some(Interrupted(reason))) => return Err(PlanInterrupted(reason));
        case (Ok(_), _) => return Ok(Page(summary.value, None, emitted));
        case (Err(_), Some(Full)) =>
          return Ok(Page(summary.value, Some(Cursor(query.after + emitted, summary.value)), emitted));
        case (Err(reason), None) => return Err(StoreError(reason));
      }
    }

    /** Any driver: whatever it calls, whatever it returns. */
    method Run(trace: seq<Event>, outcome: Result<(), string>, cancelled: bool) returns (r: Result<Page, PlanError>)
      requires Value() == NEW_SCAN
      modifies this
      ensures Value() == Scanned(query, caller, trace)
      ensures r == Concluded(query, Value(), outcome, cancelled)
    {
      for i := 0 to |trace|
        invariant Value() == Scanned(query, caller, trace[..i])
      {
        assert trace[..i + 1][..i] == trace[..i];
        var ok;
        match trace[i] {
          case Open(current) => ok := OnOpen(current);
          case Decide(d) => ok := OnDecision(d);
        }
      }
      assert trace[..|trace|] == trace;
      r := Conclude(outcome, cancelled);
    }
  }

  // ---------------------------------------------------------------------------------------------
  // What holds for any driver
  // ---------------------------------------------------------------------------------------------

  function Opens(trace: seq<Event>): seq<Summary> {
    if trace == [] then [] else
      var last := trace[|trace| - 1];
      Opens(trace[..|trace| - 1]) + if last.Open? then [last.summary] else []
  }

  /** The first snapshot opened, and the only one, unless the scan was marked. */
  ghost predicate ScanOk(q: Query, caller: Caller, trace: seq<Event>, s: Scan) {
    && s.emitted == |s.delivered|
    && (q.limit.Some? ==> s.emitted <= q.limit.value)
    && (s.started <==> Opens(trace) != [])
    && (|Opens(trace)| > 1 ==> s.startStop.Some?)
    && (s.startStop.None? && s.started ==>
      && |Opens(trace)| == 1 && s.begun == Opens(trace) && s.summary == Some(Opens(trace)[0])
      && (q.identity.Some? ==> q.identity.value == Opens(trace)[0]))
    && (!s.started ==> s.startStop.None? && s.summary.None? && s.begun == [] && s.delivered == [])
    && |s.begun| <= 1
    && (!s.protocolError ==> trace == [] || trace[0].Open?)
  }

  lemma {:induction false} AnyScan(q: Query, caller: Caller, trace: seq<Event>)
    ensures ScanOk(q, caller, trace, Scanned(q, caller, trace))
  {
    if trace != [] {
      AnyScan(q, caller, trace[..|trace| - 1]);
    }
  }

  /**
    Whatever the driver does, a page is reported only if the driver opened exactly one snapshot, before
    any decision, with the expected identity, announced once; and a page never passes its limit.
  */
  lemma AnyDriver(q: Query, caller: Caller, trace: seq<Event>, outcome: Result<(), string>, cancelled: bool)
    ensures var s := Scanned(q, caller, trace);
      var r := Concluded(q, s, outcome, cancelled);
      && |s.begun| <= 1 && (q.limit.Some? ==> |s.delivered| <= q.limit.value)
      && (r.Ok? ==>
        && !cancelled && trace != [] && trace[0].Open? && Opens(trace) == [r.value.summary]
        && s.begun == [r.value.summary] && r.value.emitted == |s.delivered|
        && (q.identity.Some? ==> q.identity.value == r.value.summary)
        && (r.value.nextCursor.Some? ==> r.value.nextCursor.value == Cursor(q.after + |s.delivered|, r.value.summary)))
  {
    AnyScan(q, caller, trace);
    var s := Scanned(q, caller, trace);
    if Concluded(q, s, outcome, cancelled).Ok? {
      assert Opens(trace) == [Opens(trace)[0]];
    }
  }

  /** What the snapshot callbacks leave, from the snapshots opened alone. */
  ghost predicate StartsAs(q: Query, caller: Caller, opens: seq<Summary>, s: Scan) {
    && (s.started <==> opens != [])
    && (opens == [] ==> s.startStop == None)
    && (|opens| > 1 ==> s.startStop == Some(MoreThanOne))
    && (|opens| == 1 ==>
      var changed := q.identity.Some? && q.identity.value != opens[0];
      && (changed ==> s.startStop == Some(Stale(q.identity.value, opens[0])))
      && (!changed && caller.start.Some? ==> s.startStop == Some(StartInterrupted(caller.start.value)))
      && (!changed && caller.start.None? ==> s.startStop == None))
  }

  lemma StartsOpen(q: Query, caller: Caller, opens: seq<Summary>, s: Scan, current: Summary)
    requires StartsAs(q, caller, opens, s)
    ensures StartsAs(q, caller, opens + [current], Opened(q, caller, s, current).0)
    ensures Opened(q, caller, s, current).0.protocolError == s.protocolError
  {
  }

  lemma StartsDecide(q: Query, caller: Caller, opens: seq<Summary>, s: Scan, d: Decision)
    requires StartsAs(q, caller, opens, s)
    ensures StartsAs(q, caller, opens, Decided(q, caller, s, d).0)
    ensures Decided(q, caller, s, d).0.protocolError == (s.protocolError || opens == [])
  {
  }

  lemma {:induction false} ScanStarts(q: Query, caller: Caller, trace: seq<Event>)
    ensures StartsAs(q, caller, Opens(trace), Scanned(q, caller, trace))
    ensures Scanned(q, caller, trace).protocolError <==> trace != [] && trace[0].Decide?
    ensures trace != [] && trace[0].Open? ==> Opens(trace) != []
    decreases |trace|
  {
    hide StartsAs, Opened, Decided;
    if trace == [] {
      assert StartsAs(q, caller, [], NEW_SCAN) by { NothingStarted(q, caller); }
    } else {
      var front, last := trace[..|trace| - 1], trace[|trace| - 1];
      ScanStarts(q, caller, front);
      match last
      case Open(current) => StartsOpen(q, caller, Opens(front), Scanned(q, caller, front), current);
      case Decide(d) =>
        StartsDecide(q, caller, Opens(front), Scanned(q, caller, front), d);
        assert Opens(trace) == Opens(front);
        if front != [] && front[0].Decide? { assert Scanned(q, caller, front).protocolError; }
    }
  }

  lemma NothingStarted(q: Query, caller: Caller)
    ensures StartsAs(q, caller, [], NEW_SCAN)
  {
  }

  /**
    How a plan fails, whatever the driver does: a cancelled request, a changed snapshot, a caller that refuses
    the start, a driver that opens no snapshot, more than one, or one too late.
  */
  lemma Failures(q: Query, caller: Caller, trace: seq<Event>, outcome: Result<(), string>)
    ensures var s, opens := Scanned(q, caller, trace), Opens(trace);
      var r := Concluded(q, s, outcome, false);
      && Concluded(q, s, outcome, true) == Err(PlanInterrupted("request cancelled"))
      && (trace == [] && outcome.Err? ==> r == Err(StoreError(outcome.error)))
      && (opens == [] || |opens| > 1 ==> r.Err? && r.error.StoreError?)
      && (|opens| == 1 && q.identity.Some? && q.identity.value != opens[0] ==>
            r == Err(StalePlan(q.identity.value, opens[0])))
      && (|opens| == 1 && (q.identity.Some? ==> q.identity.value == opens[0]) && caller.start.Some? ==>
            r == Err(PlanInterrupted(caller.start.value)))
      && (|opens| == 1 && (q.identity.Some? ==> q.identity.value == opens[0]) && caller.start.None? && trace[0].Decide? ==>
            r.Err? && r.error.StoreError?)
  {
    ScanStarts(q, caller, trace);
    AnyScan(q, caller, trace);
  }

  // ---------------------------------------------------------------------------------------------
  // An obedient driver over an unchanged snapshot
  // ---------------------------------------------------------------------------------------------

  function Decisions(ds: seq<Decision>): seq<Event> {
    seq(|ds|, i requires 0 <= i < |ds| => Decide(ds[i]))
  }

  /** Make the callbacks in order and stop at the first that refuses. */
  function Obey(q: Query, caller: Caller, s: Scan, events: seq<Event>): (Scan, bool)
    decreases |events|
  {
    if events == [] then (s, true) else
      var (next, ok) := Called(q, caller, s, events[0]);
      if ok then Obey(q, caller, next, events[1..]) else (next, false)
  }

  /** The decisions past an offset; none when the offset is past the end. */
  function Past(decisions: seq<Decision>, after: nat): seq<Decision> {
    if after <= |decisions| then decisions[after..] else []
  }

  /** Skip to the query's offset, open the snapshot, and stream the rest. */
  function Obedient(q: Query, caller: Caller, snapshot: Summary, decisions: seq<Decision>): (Scan, bool) {
    Obey(q, caller, NEW_SCAN, [Open(snapshot)] + Decisions(Past(decisions, q.after)))
  }

  function PlanObedient(q: Query, caller: Caller, snapshot: Summary, decisions: seq<Decision>): Result<Page, PlanError> {
    var (s, finished) := Obedient(q, caller, snapshot, decisions);
    Concluded(q, s, if finished then Ok(()) else Err("halt"), false)
  }

  ghost predicate Consents(caller: Caller) {
    caller.start.None? && forall n :: caller.emit(n).None?
  }

  /** How many of `n` decisions a page takes. */
  function Take(limit: Option<nat>, n: nat): nat {
    if limit.Some? && limit.value < n then limit.value else n
  }

  lemma {:induction false} Streamed(q: Query, caller: Caller, s: Scan, ds: seq<Decision>)
    requires Consents(caller) && s.started && (q.limit.Some? ==> s.emitted <= q.limit.value)
    ensures var n := Take(if q.limit.Some? then Some(q.limit.value - s.emitted) else None, |ds|);
      var (t, finished) := Obey(q, caller, s, Decisions(ds));
      && t.delivered == s.delivered + ds[..n] && t.emitted == s.emitted + n
      && (finished <==> n == |ds|)
      && t.stop == (if finished then s.stop else Some(Full))
      && t.summary == s.summary && t.startStop == s.startStop && t.protocolError == s.protocolError
    decreases |ds|
  {
    if ds == [] {
      assert Decisions(ds) == [];
    } else {
      assert Decisions(ds)[0] == Decide(ds[0]) && Decisions(ds)[1..] == Decisions(ds[1..]);
      var (next, ok) := Decided(q, caller, s, ds[0]);
      if ok {
        Streamed(q, caller, next, ds[1..]);
        var n := Take(if q.limit.Some? then Some(q.limit.value - s.emitted) else None, |ds|);
        assert [ds[0]] + ds[1..][..n - 1] == ds[..n];
      }
    }
  }

  /** One page over an unchanged snapshot: the next decisions, and a cursor exactly when more remain. */
  lemma OnePage(q: Query, caller: Caller, snapshot: Summary, decisions: seq<Decision>)
    requires Consents(caller) && (q.identity.Some? ==> q.identity.value == snapshot)
    ensures var rest := Past(decisions, q.after);
      var n := Take(q.limit, |rest|);
      && Obedient(q, caller, snapshot, decisions).0.delivered == rest[..n]
      && PlanObedient(q, caller, snapshot, decisions) ==
        Ok(Page(snapshot, if n < |rest| then Some(Cursor(q.after + n, snapshot)) else None, n))
  {
    var rest := Past(decisions, q.after);
    var events := [Open(snapshot)] + Decisions(rest);
    assert events[1..] == Decisions(rest);
    var begun := Opened(q, caller, NEW_SCAN, snapshot).0;
    Streamed(q, caller, begun, rest);
  }

  /** A page that can make progress: no limit, or one of at least one decision. */
  predicate Progresses(q: Query) {
    q.limit.Some? ==> q.limit.value >= 1
  }

  /** Every page's decisions, each page asked for with the last one's cursor. */
  ghost function Chain(q: Query, caller: Caller, snapshot: Summary, decisions: seq<Decision>): seq<Decision>
    requires Consents(caller) && Progresses(q) && (q.identity.Some? ==> q.identity.value == snapshot)
    decreases |Past(decisions, q.after)|
  {
    OnePage(q, caller, snapshot, decisions);
    var page := PlanObedient(q, caller, snapshot, decisions).value;
    Obedient(q, caller, snapshot, decisions).0.delivered
    + if page.nextCursor.None? then [] else
      var cursor := page.nextCursor.value;
      Chain(q.(after := cursor.after, identity := Some(cursor.summary)), caller, snapshot, decisions)
  }

  lemma ChainStep(q: Query, caller: Caller, snapshot: Summary, decisions: seq<Decision>)
    requires Consents(caller) && Progresses(q) && (q.identity.Some? ==> q.identity.value == snapshot)
    ensures var rest := Past(decisions, q.after);
      var n := Take(q.limit, |rest|);
      Chain(q, caller, snapshot, decisions) == rest[..n] + if n == |rest| then [] else
        Chain(q.(after := q.after + n, identity := Some(snapshot)), caller, snapshot, decisions)
  {
    hide Obedient, PlanObedient, Past, Consents;
    OnePage(q, caller, snapshot, decisions);
  }

  lemma PastSplit(decisions: seq<Decision>, after: nat, n: nat)
    requires n <= |Past(decisions, after)|
    ensures Past(decisions, after) == Past(decisions, after)[..n] + Past(decisions, after + n)
  {
  }

  /** Chained pages are the whole plan from the offset on: no gap, no repeat, and the last has no cursor. */
  lemma {:induction false} ChainIsWhole(q: Query, caller: Caller, snapshot: Summary, decisions: seq<Decision>)
    requires Consents(caller) && Progresses(q) && (q.identity.Some? ==> q.identity.value == snapshot)
    ensures Chain(q, caller, snapshot, decisions) == Past(decisions, q.after)
    decreases |Past(decisions, q.after)|
  {
    hide Chain, Past, Consents;
    ChainStep(q, caller, snapshot, decisions);
    var n := Take(q.limit, |Past(decisions, q.after)|);
    PastSplit(decisions, q.after, n);
    if n < |Past(decisions, q.after)| {
      ChainIsWhole(q.(after := q.after + n, identity := Some(snapshot)), caller, snapshot, decisions);
    }
  }

  /** A page of limit zero delivers nothing and, with decisions left, hands back the offset it was given. */
  lemma ZeroLimitStays(q: Query, caller: Caller, snapshot: Summary, decisions: seq<Decision>)
    requires Consents(caller) && q.limit == Some(0) && q.after < |decisions|
    requires q.identity.Some? ==> q.identity.value == snapshot
    ensures PlanObedient(q, caller, snapshot, decisions) == Ok(Page(snapshot, Some(Cursor(q.after, snapshot)), 0))
  {
    OnePage(q, caller, snapshot, decisions);
  }

  /** The caller is offered `ds` in order after the snapshot, and takes each of them. */
  ghost predicate TakesAll(q: Query, caller: Caller, n: nat) {
    && caller.start.None? && (q.limit.Some? ==> n <= q.limit.value)
    && forall i :: 0 <= i < n ==> caller.emit(i).None?
  }

  lemma {:induction false} AllTaken(q: Query, caller: Caller, snapshot: Summary, ds: seq<Decision>)
    requires TakesAll(q, caller, |ds|) && (q.identity.Some? ==> q.identity.value == snapshot)
    ensures var s := Scanned(q, caller, [Open(snapshot)] + Decisions(ds));
      && s.delivered == ds && s.asked == s.emitted == |ds| && s.stop == None && s.summary == Some(snapshot)
      && s.startStop == None && !s.protocolError && s.started
    decreases |ds|
  {
    if ds == [] {
      assert [Open(snapshot)] + Decisions(ds) == [] + [Open(snapshot)];
      ScannedNext(q, caller, [], Open(snapshot));
    } else {
      var front, last := ds[..|ds| - 1], ds[|ds| - 1];
      assert [Open(snapshot)] + Decisions(ds) == [Open(snapshot)] + Decisions(front) + [Decide(last)];
      hide Scanned, Decisions;
      AllTaken(q, caller, snapshot, front);
      ScannedNext(q, caller, [Open(snapshot)] + Decisions(front), Decide(last));
      assert ds == front + [last];
    }
  }

  lemma ScannedNext(q: Query, caller: Caller, trace: seq<Event>, e: Event)
    ensures Scanned(q, caller, trace + [e]) == Called(q, caller, Scanned(q, caller, trace), e).0
  {
    assert (trace + [e])[..|trace|] == trace;
  }

  /** With every decision taken, the driver's own outcome decides: a page without a cursor, or its error. */
  lemma DriverDecides(q: Query, caller: Caller, snapshot: Summary, ds: seq<Decision>, outcome: Result<(), string>)
    requires TakesAll(q, caller, |ds|) && (q.identity.Some? ==> q.identity.value == snapshot)
    ensures var s := Scanned(q, caller, [Open(snapshot)] + Decisions(ds));
      && s.delivered == ds
      && Concluded(q, s, outcome, false) ==
         if outcome.Ok? then Ok(Page(snapshot, None, |ds|)) else Err(StoreError(outcome.error))
  {
    AllTaken(q, caller, snapshot, ds);
  }

  /** A caller that refuses the snapshot is told its own reason and is given nothing. */
  lemma RefusedStart(q: Query, caller: Caller, snapshot: Summary, decisions: seq<Decision>)
    requires caller.start.Some? && (q.identity.Some? ==> q.identity.value == snapshot)
    ensures PlanObedient(q, caller, snapshot, decisions) == Err(PlanInterrupted(caller.start.value))
    ensures Obedient(q, caller, snapshot, decisions).0.delivered == []
    ensures Obedient(q, caller, snapshot, decisions).0.begun == [snapshot]
  {
    var events := [Open(snapshot)] + Decisions(Past(decisions, q.after));
    assert events[0] == Open(snapshot);
  }

  /** A changed identity is stale: nothing is announced and nothing emitted. */
  lemma ChangedIsStale(q: Query, caller: Caller, snapshot: Summary, decisions: seq<Decision>)
    requires q.identity.Some? && q.identity.value != snapshot
    ensures PlanObedient(q, caller, snapshot, decisions) == Err(StalePlan(q.identity.value, snapshot))
    ensures Obedient(q, caller, snapshot, decisions).0.begun == []
    ensures Obedient(q, caller, snapshot, decisions).0.delivered == []
  {
  }

  lemma {:induction false} RefusedPrefix(q: Query, caller: Caller, s: Scan, ds: seq<Decision>)
    requires s.started && s.stop.None? && s.asked == |s.delivered|
    ensures var (t, finished) := Obey(q, caller, s, Decisions(ds));
      && (exists n :: 0 <= n <= |ds| && t.delivered == s.delivered + ds[..n])
      && (finished ==> t.stop.None?)
      && (t.stop.Some? && t.stop.value.Interrupted? ==>
        |t.delivered| < t.asked && caller.emit(|t.delivered|) == Some(t.stop.value.reason))
      && t.summary == s.summary && t.startStop == s.startStop && t.protocolError == s.protocolError
    decreases |ds|
  {
    if ds == [] {
      assert Decisions(ds) == [] && s.delivered + ds[..0] == s.delivered;
    } else {
      assert Decisions(ds)[0] == Decide(ds[0]) && Decisions(ds)[1..] == Decisions(ds[1..]);
      var (next, ok) := Decided(q, caller, s, ds[0]);
      if ok {
        RefusedPrefix(q, caller, next, ds[1..]);
        var t := Obey(q, caller, next, Decisions(ds[1..])).0;
        var n :| 0 <= n <= |ds| - 1 && t.delivered == next.delivered + ds[1..][..n];
        assert t.delivered == s.delivered + ds[..n + 1];
      } else {
        assert s.delivered + ds[..0] == s.delivered;
      }
    }
  }

  /** A caller that stops mid-stream has received a prefix, in order, and is told so. */
  lemma InterruptedPrefix(q: Query, caller: Caller, snapshot: Summary, decisions: seq<Decision>)
    requires caller.start.None? && (q.identity.Some? ==> q.identity.value == snapshot)
    ensures var s := Obedient(q, caller, snapshot, decisions).0;
      var r := PlanObedient(q, caller, snapshot, decisions);
      && s.delivered <= Past(decisions, q.after)
      && (r.Err? ==> exists reason :: r.error == PlanInterrupted(reason) && caller.emit(|s.delivered|) == Some(reason))
  {
    var ds := Past(decisions, q.after);
    var events := [Open(snapshot)] + Decisions(ds);
    assert events[1..] == Decisions(ds);
    var begun := Opened(q, caller, NEW_SCAN, snapshot).0;
    RefusedPrefix(q, caller, begun, ds);
    StoppedOrFinished(q, caller, begun, ds);
    var s := Obedient(q, caller, snapshot, decisions).0;
    var n :| 0 <= n <= |ds| && s.delivered == begun.delivered + ds[..n];
    assert s.delivered == ds[..n];
  }

  lemma {:induction false} StoppedOrFinished(q: Query, caller: Caller, s: Scan, ds: seq<Decision>)
    requires s.started
    ensures var (t, finished) := Obey(q, caller, s, Decisions(ds)); finished || t.stop.Some?
    decreases |ds|
  {
    if ds != [] {
      assert Decisions(ds)[0] == Decide(ds[0]) && Decisions(ds)[1..] == Decisions(ds[1..]);
      var (next, ok) := Decided(q, caller, s, ds[0]);
      if ok { StoppedOrFinished(q, caller, next, ds[1..]); }
    } else {
      assert Decisions(ds) == [];
    }
  }

  // ---------------------------------------------------------------------------------------------
  // What a page without a cursor leaves behind
  // ---------------------------------------------------------------------------------------------

  /** The decisions a driver offered. */
  function Offered(trace: seq<Event>): seq<Decision> {
    if trace == [] then [] else
      var last := trace[|trace| - 1];
      Offered(trace[..|trace| - 1]) + if last.Decide? then [last.decision] else []
  }

  /** Event `i` is a decision that met a full page. */
  ghost predicate RefusedAsFull(q: Query, caller: Caller, trace: seq<Event>, i: nat)
    requires i < |trace|
  {
    var s := Scanned(q, caller, trace[..i]);
    trace[i].Decide? && s.started && q.limit.Some? && s.emitted >= q.limit.value
  }

  ghost predicate SomeRefused(q: Query, caller: Caller, trace: seq<Event>) {
    exists i :: 0 <= i < |trace| && RefusedAsFull(q, caller, trace, i)
  }

  predicate MoreThan(limit: Option<nat>, n: nat) {
    limit.Some? && n > limit.value
  }

  lemma RefusedAppend(q: Query, caller: Caller, trace: seq<Event>)
    requires trace != []
    ensures SomeRefused(q, caller, trace) <==>
      SomeRefused(q, caller, trace[..|trace| - 1]) || RefusedAsFull(q, caller, trace, |trace| - 1)
  {
    hide Scanned;
    var front := trace[..|trace| - 1];
    forall i | 0 <= i < |front| ensures RefusedAsFull(q, caller, front, i) == RefusedAsFull(q, caller, trace, i) {
      assert front[..i] == trace[..i];
    }
    if SomeRefused(q, caller, trace) && !RefusedAsFull(q, caller, trace, |trace| - 1) {
      var i :| 0 <= i < |trace| && RefusedAsFull(q, caller, trace, i);
      assert RefusedAsFull(q, caller, front, i);
    }
    if SomeRefused(q, caller, front) {
      var i :| 0 <= i < |front| && RefusedAsFull(q, caller, front, i);
      assert RefusedAsFull(q, caller, trace, i);
    }
  }

  /** A scan that has refused no one has delivered what was offered; a full one was offered more than the limit. */
  lemma {:induction false} OfferedOrFull(q: Query, caller: Caller, trace: seq<Event>)
    ensures var s := Scanned(q, caller, trace);
      !s.protocolError ==>
        && |s.delivered| == s.emitted <= |Offered(trace)|
        && (s.stop.None? ==> s.delivered == Offered(trace))
        && (s.stop == Some(Full) <==> SomeRefused(q, caller, trace))
        && (s.stop == Some(Full) ==> MoreThan(q.limit, |Offered(trace)|) && s.emitted == q.limit.value)
    ensures q.limit.Some? ==> Scanned(q, caller, trace).emitted <= q.limit.value
  {
    if trace != [] {
      OfferedOrFull(q, caller, trace[..|trace| - 1]);
      RefusedAppend(q, caller, trace);
      hide SomeRefused;
    }
  }

  /**
    Whatever the driver, a page that hands out no cursor has met a decision it had no room for exactly when
    the driver reported success after offering more than the limit, and it has delivered everything offered
    exactly when it was not offered more than the limit.
  */
  lemma LostIff(q: Query, caller: Caller, trace: seq<Event>, outcome: Result<(), string>, cancelled: bool)
    requires Concluded(q, Scanned(q, caller, trace), outcome, cancelled).Ok?
    ensures var s := Scanned(q, caller, trace);
      var page := Concluded(q, s, outcome, cancelled).value;
      && (SomeRefused(q, caller, trace) <==> MoreThan(q.limit, |Offered(trace)|))
      && (page.nextCursor.None? && SomeRefused(q, caller, trace) <==>
        outcome.Ok? && MoreThan(q.limit, |Offered(trace)|))
      && (page.nextCursor.None? ==> (s.delivered == Offered(trace) <==> !MoreThan(q.limit, |Offered(trace)|)))
  {
    OfferedOrFull(q, caller, trace);
  }

  /** The obedience matters: a driver that swallows the halt of a full page makes the plan look exhausted. */
  lemma SwallowedHaltLoses()
    ensures var q := Query(0, Some(1), None);
      var caller := Caller(None, (n: nat) => None);
      var trace := [Open(Summary(0, 0)), Decide(7), Decide(8)];
      && Concluded(q, Scanned(q, caller, trace), Ok(()), false) == Ok(Page(Summary(0, 0), None, 1))
      && Scanned(q, caller, trace).delivered == [7]
  {
    var q := Query(0, Some(1), None);
    var caller := Caller(None, (n: nat) => None);
    var a, b, c := [Open(Summary(0, 0))], [Open(Summary(0, 0)), Decide(7)], [Open(Summary(0, 0)), Decide(7), Decide(8)];
    assert c[..2] == b && b[..1] == a && a[..0] == [];
    assert Scanned(q, caller, a).summary == Some(Summary(0, 0));
    assert Scanned(q, caller, b).delivered == [7];
  }

  // ---------------------------------------------------------------------------------------------
  // The gate
  // ---------------------------------------------------------------------------------------------

  class Gates {
    const perRepository: nat
    var inflight: map<string, nat>
    /** Every permit not yet dropped, by repository. */
    ghost var permits: multiset<string>

    ghost predicate Valid()
      reads this
    {
      && (forall r :: permits[r] == if r in inflight then inflight[r] else 0)
      && (forall r :: permits[r] <= perRepository)
      && (forall r :: r in inflight && inflight[r] == 0 ==> perRepository == 0)
    }

    constructor (perRepository: nat)
      ensures Valid() && this.perRepository == perRepository && permits == multiset{}
    {
      this.perRepository := perRepository;
      inflight, permits := map[], multiset{};
    }

    /** Admit exactly while fewer permits than the limit are live for that repository. */
    method TryEnter(repository: string) returns (admitted: bool)
      requires Valid()
      modifies this
      ensures Valid()
      ensures admitted <==> old(permits)[repository] < perRepository
      ensures permits == if admitted then old(permits) + multiset{repository} else old(permits)
    {
      if repository !in inflight {
        inflight := inflight[repository := 0];
      }
      admitted := inflight[repository] < perRepository;
      if admitted {
        inflight := inflight[repository := inflight[repository] + 1];
        permits := permits + multiset{repository};
      }
    }

    /** A live permit is always counted, so giving it back never fails; the last one leaves no entry. */
    method Drop(repository: string)
      requires Valid() && repository in permits
      modifies this
      ensures Valid() && permits == old(permits) - multiset{repository}
      ensures repository in inflight <==> repository in permits
    {
      assert permits[repository] > 0;
      var count := inflight[repository] - 1;
      inflight := inflight[repository := count];
      if count == 0 {
        inflight := inflight - {repository};
      }
      permits := permits - multiset{repository};
    }
  }
}
