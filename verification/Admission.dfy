/**
  Admission of upstream fetches: a process-wide budget shared by every gate, an admission budget per
  index, and the index's active cap, each a counting semaphore.

  A state machine over the steps between which other fetches may run.  A fetch takes the process permit,
  then the index permit, then waits for an active one; it gives them back one at a time, in the reverse
  order, whether it ran, was turned away, timed out or was cancelled.
*/
module Admission {
  import opened Common

  const UPSTREAM_WAIT_ALLOWANCE: nat := 4
  const MAX_UPSTREAM_ADMISSIONS: nat := 1024
  const MAX_PERMITS: nat := 0x1fff_ffff_ffff_ffff
  const USIZE_MAX: nat := 0xffff_ffff_ffff_ffff

  type TaskId = nat
  /** An index of one set of gates; sibling sets have different gates and the same process budget. */
  type GateId = nat

  datatype Pc =
    | Arrived
    | Counted                   // holds the process permit
    | Queued                    // holds the process and index permits
    | Active                    // holds all three
    | Draining                  // the active permit is back, or was never had
    | Leaving                   // the index permit is back, or was never had
    | Passed                    // no gate: nothing to hold
    | Gone

  datatype Task = Task(gate: GateId, pc: Pc)

  /** Available permits. */
  datatype Gate = Gate(cap: nat, active: nat, admission: nat)

  datatype State = State(tasks: map<TaskId, Task>, process: nat, gates: map<GateId, Gate>)

  /** Active plus waiting work an index may hold; the product saturates. */
  function IndexAdmissions(cap: nat): nat {
    var wide := cap * (1 + UPSTREAM_WAIT_ALLOWANCE);
    var product := if wide > USIZE_MAX then USIZE_MAX else wide;
    if product < MAX_PERMITS then product else MAX_PERMITS
  }

  /** An index may hold five times its cap, up to the most permits a semaphore has. */
  lemma IndexAdmissionsIs(cap: nat)
    ensures IndexAdmissions(cap) == if 5 * cap <= 2305843009213693951 then 5 * cap else 2305843009213693951
  {
  }

  /** Gates over a fresh process budget.  A cap of zero means no gate. */
  ghost predicate Init(caps: map<GateId, nat>, s: State) {
    && s.tasks == map[]
    && s.process == MAX_UPSTREAM_ADMISSIONS
    && s.gates == map g | g in caps && caps[g] > 0 :: Gate(caps[g], caps[g], IndexAdmissions(caps[g]))
  }

  datatype Step =
    | Spawn(t: TaskId, gate: GateId)
    | Pass(t: TaskId)
    | TakeProcess(t: TaskId)
    | TakeIndex(t: TaskId)
    | Grant(t: TaskId)
    /** The wait timed out or was cancelled. */
    | GiveUp(t: TaskId)
    /** The fetch ended or was cancelled. */
    | DropActive(t: TaskId)
    | DropIndex(t: TaskId)
    | DropProcess(t: TaskId)

  predicate Gated(s: State, t: TaskId) {
    t in s.tasks && s.tasks[t].gate in s.gates
  }

  predicate At(s: State, t: TaskId, pc: Pc) {
    Gated(s, t) && s.tasks[t].pc == pc
  }

  predicate Enabled(s: State, step: Step) {
    match step
    case Spawn(t, _) => t !in s.tasks
    case Pass(t) => t in s.tasks && s.tasks[t].gate !in s.gates && s.tasks[t].pc == Arrived
    case TakeProcess(t) => At(s, t, Arrived)
    case TakeIndex(t) => At(s, t, Counted)
    case Grant(t) => At(s, t, Queued) && s.gates[s.tasks[t].gate].active > 0
    case GiveUp(t) => At(s, t, Queued)
    case DropActive(t) => At(s, t, Active)
    case DropIndex(t) => At(s, t, Draining)
    case DropProcess(t) => At(s, t, Leaving)
  }

  function Goto(s: State, t: TaskId, pc: Pc): State
    requires t in s.tasks
  {
    s.(tasks := s.tasks[t := s.tasks[t].(pc := pc)])
  }

  function Do(s: State, step: Step): State
    requires Enabled(s, step)
  {
    match step
    case Spawn(t, gate) => s.(tasks := s.tasks[t := Task(gate, Arrived)])
    case Pass(t) => Goto(s, t, Passed)
    case TakeProcess(t) =>
      if s.process == 0 then Goto(s, t, Gone) else Goto(s, t, Counted).(process := s.process - 1)
    case TakeIndex(t) =>
      var g := s.tasks[t].gate;
      var gate := s.gates[g];
      if gate.admission == 0 then Goto(s, t, Leaving)
      else Goto(s, t, Queued).(gates := s.gates[g := gate.(admission := gate.admission - 1)])
    case Grant(t) =>
      var g := s.tasks[t].gate;
      Goto(s, t, Active).(gates := s.gates[g := s.gates[g].(active := s.gates[g].active - 1)])
    case GiveUp(t) => Goto(s, t, Draining)
    case DropActive(t) =>
      var g := s.tasks[t].gate;
      Goto(s, t, Draining).(gates := s.gates[g := s.gates[g].(active := s.gates[g].active + 1)])
    case DropIndex(t) =>
      var g := s.tasks[t].gate;
      Goto(s, t, Leaving).(gates := s.gates[g := s.gates[g].(admission := s.gates[g].admission + 1)])
    case DropProcess(t) => Goto(s, t, Gone).(process := s.process + 1)
  }

  // ---------------------------------------------------------------------------------------------
  // Who holds what
  // ---------------------------------------------------------------------------------------------

  predicate HoldsProcess(pc: Pc) {
    pc == Counted || pc == Queued || pc == Active || pc == Draining || pc == Leaving
  }

  predicate HoldsIndex(pc: Pc) {
    pc == Queued || pc == Active || pc == Draining
  }

  predicate HoldsActive(pc: Pc) {
    pc == Active
  }

  ghost function InProcess(tasks: map<TaskId, Task>): set<TaskId> {
    set t | t in tasks && HoldsProcess(tasks[t].pc)
  }

  ghost function InIndex(tasks: map<TaskId, Task>, g: GateId): set<TaskId> {
    set t | t in tasks && tasks[t].gate == g && HoldsIndex(tasks[t].pc)
  }

  ghost function InActive(tasks: map<TaskId, Task>, g: GateId): set<TaskId> {
    set t | t in tasks && tasks[t].gate == g && HoldsActive(tasks[t].pc)
  }

  ghost predicate GateOk(s: State, g: GateId)
    requires g in s.gates
  {
    var gate := s.gates[g];
    && 0 < gate.cap <= MAX_PERMITS
    && gate.active + |InActive(s.tasks, g)| == gate.cap
    && gate.admission + |InIndex(s.tasks, g)| == IndexAdmissions(gate.cap)
  }

  /** Every permit is either available or held, and only fetches through a gate hold any. */
  ghost predicate Inv(s: State) {
    && s.process + |InProcess(s.tasks)| == MAX_UPSTREAM_ADMISSIONS
    && (forall g :: g in s.gates ==> GateOk(s, g))
    && (forall t :: t in InProcess(s.tasks) ==> Gated(s, t))
  }

  function Bit(b: bool): nat {
    if b then 1 else 0
  }

  /** A set with `t` put in or taken out. */
  ghost function With(members: set<TaskId>, t: TaskId, present: bool): (r: set<TaskId>)
    ensures |r| == |members| + Bit(present) - Bit(t in members)
  {
    if present then members + {t} else members - {t}
  }

  lemma MovedProcess(s: State, t: TaskId, pc: Pc)
    requires t in s.tasks
    ensures |InProcess(Goto(s, t, pc).tasks)|
      == |InProcess(s.tasks)| + Bit(HoldsProcess(pc)) - Bit(HoldsProcess(s.tasks[t].pc))
    ensures forall u :: u in InProcess(Goto(s, t, pc).tasks) ==> u == t || u in InProcess(s.tasks)
  {
    var r := With(InProcess(s.tasks), t, HoldsProcess(pc));
    assert InProcess(Goto(s, t, pc).tasks) == r;
  }

  lemma MovedIndex(s: State, t: TaskId, pc: Pc, g: GateId)
    requires t in s.tasks
    ensures |InIndex(Goto(s, t, pc).tasks, g)| == |InIndex(s.tasks, g)|
      + if g == s.tasks[t].gate then Bit(HoldsIndex(pc)) - Bit(HoldsIndex(s.tasks[t].pc)) else 0
  {
    var was, now := InIndex(s.tasks, g), InIndex(Goto(s, t, pc).tasks, g);
    hide HoldsIndex;
    if g != s.tasks[t].gate {
      assert now == was;
    } else {
      assert now == With(was, t, HoldsIndex(pc));
    }
  }

  lemma MovedActive(s: State, t: TaskId, pc: Pc, g: GateId)
    requires t in s.tasks
    ensures |InActive(Goto(s, t, pc).tasks, g)| == |InActive(s.tasks, g)|
      + if g == s.tasks[t].gate then Bit(HoldsActive(pc)) - Bit(HoldsActive(s.tasks[t].pc)) else 0
  {
    var was, now := InActive(s.tasks, g), InActive(Goto(s, t, pc).tasks, g);
    hide HoldsActive;
    if g != s.tasks[t].gate {
      assert now == was;
    } else {
      assert now == With(was, t, HoldsActive(pc));
    }
  }

  lemma Arrives(s: State, t: TaskId, gate: GateId)
    requires t !in s.tasks
    ensures var tasks := s.tasks[t := Task(gate, Arrived)];
      && InProcess(tasks) == InProcess(s.tasks)
      && (forall g :: InIndex(tasks, g) == InIndex(s.tasks, g))
      && (forall g :: InActive(tasks, g) == InActive(s.tasks, g))
  {
    var tasks := s.tasks[t := Task(gate, Arrived)];
    forall g ensures InIndex(tasks, g) == InIndex(s.tasks, g) && InActive(tasks, g) == InActive(s.tasks, g) {
    }
  }

  /** A move that changes each available count by what the fetch takes or gives back keeps the invariant. */
  lemma MoveInv(s: State, t: TaskId, pc: Pc, process: nat, gate: Gate)
    requires Inv(s) && Gated(s, t)
    requires process + Bit(HoldsProcess(pc)) == s.process + Bit(HoldsProcess(s.tasks[t].pc))
    requires var was := s.gates[s.tasks[t].gate];
      && gate.cap == was.cap
      && gate.active + Bit(HoldsActive(pc)) == was.active + Bit(HoldsActive(s.tasks[t].pc))
      && gate.admission + Bit(HoldsIndex(pc)) == was.admission + Bit(HoldsIndex(s.tasks[t].pc))
    ensures Inv(Goto(s, t, pc).(process := process, gates := s.gates[s.tasks[t].gate := gate]))
  {
    var n := Goto(s, t, pc).(process := process, gates := s.gates[s.tasks[t].gate := gate]);
    hide InProcess, InIndex, InActive, IndexAdmissions, HoldsProcess, HoldsIndex, HoldsActive;
    MovedProcess(s, t, pc);
    forall g | g in n.gates ensures GateOk(n, g) {
      assert GateOk(s, g);
      MovedIndex(s, t, pc, g);
      MovedActive(s, t, pc, g);
    }
  }

  lemma SameGate(s: State, g: GateId)
    requires g in s.gates
    ensures s.gates[g := s.gates[g]] == s.gates
  {
  }

  lemma PassInv(s: State, t: TaskId)
    requires Inv(s) && Enabled(s, Pass(t))
    ensures Inv(Do(s, Pass(t)))
  {
    hide InIndex, InActive, IndexAdmissions;
    MovedProcess(s, t, Passed);
    forall g | g in s.gates ensures GateOk(Do(s, Pass(t)), g) {
      assert GateOk(s, g);
      MovedIndex(s, t, Passed, g);
      MovedActive(s, t, Passed, g);
    }
  }

  lemma SpawnInv(s: State, t: TaskId, gate: GateId)
    requires Inv(s) && Enabled(s, Spawn(t, gate))
    ensures Inv(Do(s, Spawn(t, gate)))
  {
    Arrives(s, t, gate);
    hide InProcess, InIndex, InActive, IndexAdmissions;
    forall g | g in s.gates ensures GateOk(Do(s, Spawn(t, gate)), g) {
      assert GateOk(s, g);
    }
    forall u | u in InProcess(s.tasks) ensures Gated(Do(s, Spawn(t, gate)), u) {
      assert Gated(s, u);
    }
  }

  lemma DoInv(s: State, step: Step)
    requires Inv(s) && Enabled(s, step)
    ensures Inv(Do(s, step))
  {
    hide Inv;
    if step.Spawn? {
      SpawnInv(s, step.t, step.gate);
    } else if step.Pass? {
      PassInv(s, step.t);
    } else {
      var n := Do(s, step);
      var g := s.tasks[step.t].gate;
      MoveInv(s, step.t, n.tasks[step.t].pc, n.process, n.gates[g]);
      SameGate(s, g);
      assert n == Goto(s, step.t, n.tasks[step.t].pc).(process := n.process, gates := s.gates[g := n.gates[g]]);
    }
  }

  // ---------------------------------------------------------------------------------------------
  // Every run
  // ---------------------------------------------------------------------------------------------

  ghost predicate StepAt(run: seq<State>, steps: seq<Step>, i: nat)
    requires i < |steps| && |run| == |steps| + 1
  {
    Enabled(run[i], steps[i]) && run[i + 1] == Do(run[i], steps[i])
  }

  ghost predicate Run(caps: map<GateId, nat>, run: seq<State>, steps: seq<Step>) {
    && (forall g :: g in caps ==> caps[g] <= MAX_PERMITS)
    && |run| == |steps| + 1 && Init(caps, run[0])
    && forall i :: 0 <= i < |steps| ==> StepAt(run, steps, i)
  }

  /** The gates keep their caps. */
  ghost predicate Capped(caps: map<GateId, nat>, s: State) {
    && (forall g :: g in s.gates <==> g in caps && caps[g] > 0)
    && (forall g :: g in s.gates ==> s.gates[g].cap == caps[g])
  }

  lemma DoCapped(caps: map<GateId, nat>, s: State, step: Step)
    requires Capped(caps, s) && Enabled(s, step)
    ensures Capped(caps, Do(s, step))
  {
  }

  lemma InitInv(caps: map<GateId, nat>, s: State)
    requires Init(caps, s) && forall g :: g in caps ==> caps[g] <= MAX_PERMITS
    ensures Inv(s) && Capped(caps, s)
  {
    hide IndexAdmissions;
    assert InProcess(s.tasks) == {};
    forall g | g in s.gates ensures GateOk(s, g) {
      assert InIndex(s.tasks, g) == {} && InActive(s.tasks, g) == {};
    }
  }

  lemma {:induction false} RunInv(caps: map<GateId, nat>, run: seq<State>, steps: seq<Step>, i: nat)
    requires Run(caps, run, steps) && i <= |steps|
    ensures Inv(run[i]) && Capped(caps, run[i])
  {
    hide Inv, Capped, Init, Do, Enabled;
    if i > 0 {
      RunInv(caps, run, steps, i - 1);
      assert StepAt(run, steps, i - 1);
      DoInv(run[i - 1], steps[i - 1]);
      DoCapped(caps, run[i - 1], steps[i - 1]);
    } else {
      InitInv(caps, run[0]);
    }
  }

  /** The counts a snapshot derives from available permits. */
  function InFlight(gate: Gate): nat {
    if gate.cap > gate.active then gate.cap - gate.active else 0
  }

  function Waiting(gate: Gate): nat {
    var admitted := if IndexAdmissions(gate.cap) > gate.admission then IndexAdmissions(gate.cap) - gate.admission else 0;
    if admitted > InFlight(gate) then admitted - InFlight(gate) else 0
  }

  /**
    On every index at every instant: active work is within the cap and within what is admitted, admitted
    work is within five times the cap, and the snapshot counts are exact, nothing having saturated.
  */
  lemma IndexBounds(caps: map<GateId, nat>, run: seq<State>, steps: seq<Step>, i: nat, g: GateId)
    requires Run(caps, run, steps) && i <= |steps| && g in caps && caps[g] > 0
    ensures g in run[i].gates && run[i].gates[g].cap == caps[g]
    ensures var s := run[i];
      && InFlight(s.gates[g]) == |InActive(s.tasks, g)| <= caps[g]
      && InActive(s.tasks, g) <= InIndex(s.tasks, g)
      && |InActive(s.tasks, g)| <= |InIndex(s.tasks, g)| <= 5 * caps[g]
      && InFlight(s.gates[g]) + Waiting(s.gates[g]) == |InIndex(s.tasks, g)|
      && IndexAdmissions(caps[g]) >= caps[g]
  {
    var s := run[i];
    RunInv(caps, run, steps, i);
    assert GateOk(s, g);
    SubsetSize(InActive(s.tasks, g), InIndex(s.tasks, g));
  }

  /**
    A snapshot reads the active count, then the admission count, then the active count again, each at its own
    instant.  Whatever happens in between, neither number passes its bound.
  */
  lemma SnapshotBounds(caps: map<GateId, nat>, run: seq<State>, steps: seq<Step>, i: nat, j: nat, k: nat, g: GateId)
    requires Run(caps, run, steps) && i <= j <= k <= |steps| && g in caps && caps[g] > 0
    ensures g in run[i].gates && g in run[j].gates && g in run[k].gates
    ensures InFlight(run[i].gates[g]) <= caps[g]
    ensures var torn := Gate(caps[g], run[k].gates[g].active, run[j].gates[g].admission);
      && Waiting(torn) <= |InIndex(run[j].tasks, g)| <= IndexAdmissions(caps[g]) <= 5 * caps[g]
      && (Waiting(torn) > 0 ==> Waiting(torn) + |InActive(run[k].tasks, g)| == |InIndex(run[j].tasks, g)|)
  {
    IndexBounds(caps, run, steps, i, g);
    IndexBounds(caps, run, steps, j, g);
    IndexBounds(caps, run, steps, k, g);
    RunInv(caps, run, steps, j);
    assert GateOk(run[j], g);
  }

  /** The admitted work of some gates together. */
  ghost function Admitted(s: State, gates: set<GateId>): nat {
    if gates == {} then 0 else var g :| g in gates; |InIndex(s.tasks, g)| + Admitted(s, gates - {g})
  }

  ghost function AnyOf(s: State, gates: set<GateId>): set<TaskId> {
    set t | t in s.tasks && s.tasks[t].gate in gates && HoldsIndex(s.tasks[t].pc)
  }

  lemma {:induction false} AdmittedIsUnion(s: State, gates: set<GateId>)
    ensures Admitted(s, gates) == |AnyOf(s, gates)|
    decreases |gates|
  {
    if gates == {} {
      assert AnyOf(s, gates) == {};
    } else {
      var g :| g in gates && Admitted(s, gates) == |InIndex(s.tasks, g)| + Admitted(s, gates - {g});
      AdmittedIsUnion(s, gates - {g});
      assert AnyOf(s, gates) == InIndex(s.tasks, g) + AnyOf(s, gates - {g});
      assert InIndex(s.tasks, g) !! AnyOf(s, gates - {g});
    }
  }

  /** Over all gates of all siblings, admitted work never exceeds the one process budget. */
  lemma ProcessBound(caps: map<GateId, nat>, run: seq<State>, steps: seq<Step>, i: nat, gates: set<GateId>)
    requires Run(caps, run, steps) && i <= |steps|
    ensures Admitted(run[i], gates) <= |InProcess(run[i].tasks)| <= 1024
  {
    RunInv(caps, run, steps, i);
    AdmittedIsUnion(run[i], gates);
    SubsetSize(AnyOf(run[i], gates), InProcess(run[i].tasks));
  }

  /** Once every fetch is gone, every permit is back. */
  lemma AllReturned(caps: map<GateId, nat>, run: seq<State>, steps: seq<Step>, i: nat)
    requires Run(caps, run, steps) && i <= |steps|
    requires forall t :: t in run[i].tasks ==> run[i].tasks[t].pc in {Arrived, Passed, Gone}
    ensures run[i].process == MAX_UPSTREAM_ADMISSIONS
    ensures forall g :: g in caps && caps[g] > 0 ==>
      g in run[i].gates && run[i].gates[g] == Gate(caps[g], caps[g], IndexAdmissions(caps[g]))
  {
    var s := run[i];
    RunInv(caps, run, steps, i);
    assert InProcess(s.tasks) == {};
    forall g | g in s.gates ensures s.gates[g] == Gate(caps[g], caps[g], IndexAdmissions(caps[g])) {
      assert GateOk(s, g);
      assert InIndex(s.tasks, g) == {} && InActive(s.tasks, g) == {};
    }
  }

  /** A fetch is turned away exactly when the process budget, or its index's allowance, is fully held. */
  lemma RejectedIff(caps: map<GateId, nat>, run: seq<State>, steps: seq<Step>, i: nat)
    requires Run(caps, run, steps) && i < |steps|
    ensures var t := steps[i].t;
      steps[i].TakeProcess? ==>
      && t in run[i + 1].tasks
      && (run[i + 1].tasks[t].pc == Gone <==> |InProcess(run[i].tasks)| == 1024)
      && (run[i + 1].tasks[t].pc == Counted <==> |InProcess(run[i].tasks)| < 1024)
    ensures var t := steps[i].t;
      steps[i].TakeIndex? ==>
      && Gated(run[i], t) && t in run[i + 1].tasks
      && var held, cap := |InIndex(run[i].tasks, run[i].tasks[t].gate)|, run[i].gates[run[i].tasks[t].gate].cap;
         var room := held < 5 * cap && held < 2305843009213693951;
         (run[i + 1].tasks[t].pc == Leaving <==> !room) && (run[i + 1].tasks[t].pc == Queued <==> room)
  {
    RunInv(caps, run, steps, i);
    assert StepAt(run, steps, i);
    if steps[i].TakeIndex? {
      assert GateOk(run[i], run[i].tasks[steps[i].t].gate);
      IndexAdmissionsIs(run[i].gates[run[i].tasks[steps[i].t].gate].cap);
    }
  }

  /** A fetch waits only while as many others are active as the cap allows; nothing else can hold it up. */
  lemma WaitsOnlyForCap(caps: map<GateId, nat>, run: seq<State>, steps: seq<Step>, i: nat, t: TaskId)
    requires Run(caps, run, steps) && i <= |steps| && t in run[i].tasks && run[i].tasks[t].pc == Queued
    ensures Gated(run[i], t)
    ensures var g := run[i].tasks[t].gate;
      Enabled(run[i], Grant(t)) <==> |InActive(run[i].tasks, g)| < run[i].gates[g].cap
  {
    var s := run[i];
    RunInv(caps, run, steps, i);
    assert t in InProcess(s.tasks);
    assert GateOk(s, s.tasks[t].gate);
  }

  /** A fetch of an index without a cap is let through at once and takes no permit. */
  lemma UncappedPasses(caps: map<GateId, nat>, run: seq<State>, steps: seq<Step>, i: nat, t: TaskId)
    requires Run(caps, run, steps) && i <= |steps| && t in run[i].tasks
    requires run[i].tasks[t].gate !in caps || caps[run[i].tasks[t].gate] == 0
    ensures run[i].tasks[t].pc == Arrived || run[i].tasks[t].pc == Passed
    ensures run[i].tasks[t].pc == Arrived ==>
      && Enabled(run[i], Pass(t))
      && var n := Do(run[i], Pass(t));
         n.process == run[i].process && n.gates == run[i].gates && n.tasks[t].pc == Passed
  {
    NoGate(caps, run, steps, i, t);
  }

  lemma {:induction false} NoGate(caps: map<GateId, nat>, run: seq<State>, steps: seq<Step>, i: nat, t: TaskId)
    requires Run(caps, run, steps) && i <= |steps| && t in run[i].tasks
    requires run[i].tasks[t].gate !in caps || caps[run[i].tasks[t].gate] == 0
    ensures run[i].tasks[t].gate !in run[i].gates
    ensures run[i].tasks[t].pc == Arrived || run[i].tasks[t].pc == Passed
  {
    if i > 0 {
      assert StepAt(run, steps, i - 1);
      GatesKept(caps, run, steps, i - 1, run[i].tasks[t].gate);
      if t in run[i - 1].tasks { NoGate(caps, run, steps, i - 1, t); }
    }
  }

  lemma {:induction false} GatesKept(caps: map<GateId, nat>, run: seq<State>, steps: seq<Step>, i: nat, g: GateId)
    requires Run(caps, run, steps) && i <= |steps|
    ensures g in run[i].gates <==> g in caps && caps[g] > 0
  {
    if i > 0 {
      GatesKept(caps, run, steps, i - 1, g);
      assert StepAt(run, steps, i - 1);
    }
  }
}
