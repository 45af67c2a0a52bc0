/**
  The digest-revocation cache protocol: a tri-state `active` flag, a per-digest decision cache and a
  readers/writer gate over an authoritative store.

  Every method is split at the points where another thread can run, so a run is any interleaving of
  the steps below.  The store keeps its whole history in `log`: the last version is what a read
  returns.  Published flags and cached decisions remember the version they were read at, and a call
  remembers the version it began at and the replicated pages retired by then; those are history
  variables, which no step consults to decide what to do.
*/
module Revocations {
  import opened Common

  type Digest = string
  type Tid = nat
  type PageId = nat

  datatype RowState = Active | Lifted
  datatype Decision = Clear | Revoked

  type Rows = map<Digest, RowState>

  /** Who committed a version: the first content of the store, a local `put` or `lift`, or a replicated page. */
  datatype Source = Initial | Local | Replicated(page: PageId)

  datatype Version = Version(rows: Rows, source: Source, touched: set<Digest>)

  /** A replicated page names the digests it wrote; a checkpoint is retired by dropping every decision. */
  datatype Page = Page(digests: set<Digest>, checkpoint: bool)

  datatype Flag = Unknown | Known(some: bool, version: nat)
  datatype Cached = Cached(decision: Decision, version: nat)

  datatype Call =
    | Decide(digest: Digest)
    | Put(digest: Digest)
    | Lift(digest: Digest)
    | Retire(page: PageId)

  datatype Pc =
    // decision: the flag, then the cache, then the row
    | Start
    | WantFlagGate
    | FlagGate
    | FlagRead(some: bool, version: nat)
    | FlagPublished(some: bool, version: nat)
    | Lookup
    | WantRowGate
    | RowGate
    | RowRead(decision: Decision, version: nat)
    | RowPublished(decision: Decision, version: nat)
    | Answered(decision: Decision, version: nat, ended: nat)
    // put, lift, invalidate_replicated and invalidate_all
    | WantWrite
    | WriteGate
    | FlagReset
    | Invalidating(left: set<Digest>)
    | Aborting
    | Returned

  datatype Thread = Thread(call: Call, pc: Pc, begun: nat, retired: set<PageId>)

  datatype State = State(
    log: seq<Version>,
    flag: Flag,
    cache: map<Digest, Cached>,
    readers: set<Tid>,
    writer: Option<Tid>,
    threads: map<Tid, Thread>,
    pages: map<PageId, Page>,
    retired: set<PageId>
  )

  datatype Step =
    | Begin(t: Tid, call: Call)
    | LoadFlag(t: Tid)
    | AcquireRead(t: Tid)
    | ReadFlag(t: Tid)
    | PublishFlag(t: Tid)
    | ReadRow(t: Tid)
    | PublishRow(t: Tid)
    | ReleaseRead(t: Tid)
    | FailRead(t: Tid)
    | LookupCache(t: Tid)
    | AcquireWrite(t: Tid)
    | ResetFlag(t: Tid)
    | Commit(t: Tid)
    | FailCommit(t: Tid)
    | Invalidate(t: Tid, digest: Digest)
    | InvalidateAll(t: Tid)
    | ReleaseWrite(t: Tid)
    | SkipEmpty(t: Tid)
    | ReplicaCommit(page: PageId, rows: Rows, digests: set<Digest>, checkpoint: bool)
    | Expire(digest: Digest)

  // ---------------------------------------------------------------------------------------------
  // The authoritative store
  // ---------------------------------------------------------------------------------------------

  function Answer(rows: Rows, digest: Digest): Decision {
    if digest in rows && rows[digest] == Active then Revoked else Clear
  }

  ghost predicate HasActive(rows: Rows) {
    exists d :: d in rows && Answer(rows, d) == Revoked
  }

  function Now(s: State): nat
    requires |s.log| > 0
  {
    |s.log| - 1
  }

  function Store(s: State): Rows
    requires |s.log| > 0
  {
    s.log[Now(s)].rows
  }

  /** The transaction `put` or `lift` runs; one that finds the row as it wants it leaves the rows alone. */
  function LocalCommit(s: State, call: Call): seq<Version>
    requires |s.log| > 0
    requires call.Put? || call.Lift?
  {
    var rows, d := Store(s), call.digest;
    var written :=
      if call.Put? && Answer(rows, d) == Clear then rows[d := Active]
      else if call.Lift? && Answer(rows, d) == Revoked then rows[d := Lifted]
      else rows;
    s.log + [Version(written, Local, {d})]
  }

  // ---------------------------------------------------------------------------------------------
  // The steps
  // ---------------------------------------------------------------------------------------------

  predicate At(s: State, t: Tid, pc: Pc) {
    t in s.threads && s.threads[t].pc == pc
  }

  function Move(s: State, t: Tid, pc: Pc): State
    requires t in s.threads
  {
    s.(threads := s.threads[t := s.threads[t].(pc := pc)])
  }

  predicate Present(s: State, t: Tid) {
    |s.log| > 0 && t in s.threads
  }

  predicate Deciding(s: State, t: Tid) {
    Present(s, t) && s.threads[t].call.Decide?
  }

  predicate Writing(s: State, t: Tid) {
    Present(s, t) && (s.threads[t].call.Put? || s.threads[t].call.Lift?)
  }

  predicate Retiring(s: State, t: Tid) {
    Present(s, t) && s.threads[t].call.Retire? && s.threads[t].call.page in s.pages
  }

  function DoBegin(s: State, t: Tid, call: Call): State
    requires |s.log| > 0
  {
    s.(threads := s.threads[t := Thread(call, if call.Decide? then Start else WantWrite, Now(s), s.retired)])
  }

  /** A known flag needs no gate: "none" answers at once, "some" goes to the cache. */
  function DoLoadFlag(s: State, t: Tid): State
    requires Deciding(s, t)
  {
    if s.flag.Unknown? then Move(s, t, WantFlagGate)
    else if s.flag.some then Move(s, t, Lookup)
    else Move(s, t, Answered(Clear, s.flag.version, Now(s)))
  }

  function DoAcquireRead(s: State, t: Tid): State
    requires Deciding(s, t)
  {
    Move(s, t, if s.threads[t].pc.WantFlagGate? then FlagGate else RowGate).(readers := s.readers + {t})
  }

  ghost function DoReadFlag(s: State, t: Tid): State
    requires Deciding(s, t)
  {
    Move(s, t, FlagRead(HasActive(Store(s)), Now(s)))
  }

  function DoPublishFlag(s: State, t: Tid): State
    requires Deciding(s, t) && s.threads[t].pc.FlagRead?
  {
    var pc := s.threads[t].pc;
    Move(s, t, FlagPublished(pc.some, pc.version)).(flag := Known(pc.some, pc.version))
  }

  function DoReadRow(s: State, t: Tid): State
    requires Deciding(s, t)
  {
    Move(s, t, RowRead(Answer(Store(s), s.threads[t].call.digest), Now(s)))
  }

  function DoPublishRow(s: State, t: Tid): State
    requires Deciding(s, t) && s.threads[t].pc.RowRead?
  {
    var pc := s.threads[t].pc;
    Move(s, t, RowPublished(pc.decision, pc.version))
    .(cache := s.cache[s.threads[t].call.digest := Cached(pc.decision, pc.version)])
  }

  function DoReleaseRead(s: State, t: Tid): State
    requires Deciding(s, t) && (s.threads[t].pc.FlagPublished? || s.threads[t].pc.RowPublished?)
  {
    var pc := s.threads[t].pc;
    var next :=
      if pc.RowPublished? then Answered(pc.decision, pc.version, Now(s))
      else if pc.some then Lookup
      else Answered(Clear, pc.version, Now(s));
    Move(s, t, next).(readers := s.readers - {t})
  }

  /** The store read failed: the guard is dropped and the error returned. */
  function DoFailRead(s: State, t: Tid): State
    requires Deciding(s, t)
  {
    Move(s, t, Returned).(readers := s.readers - {t})
  }

  function DoLookup(s: State, t: Tid): State
    requires Deciding(s, t)
  {
    var d := s.threads[t].call.digest;
    Move(s, t, if d in s.cache then Answered(s.cache[d].decision, s.cache[d].version, Now(s)) else WantRowGate)
  }

  function DoAcquireWrite(s: State, t: Tid): State
    requires Present(s, t)
  {
    Move(s, t, WriteGate).(writer := Some(t))
  }

  function DoResetFlag(s: State, t: Tid): State
    requires Writing(s, t) || Retiring(s, t)
  {
    var call := s.threads[t].call;
    Move(s, t, if call.Retire? then Invalidating(s.pages[call.page].digests) else FlagReset).(flag := Unknown)
  }

  function DoCommit(s: State, t: Tid): State
    requires Writing(s, t)
  {
    var call := s.threads[t].call;
    Move(s, t, Invalidating({call.digest})).(log := LocalCommit(s, call))
  }

  function DoInvalidate(s: State, t: Tid, d: Digest): State
    requires Present(s, t) && s.threads[t].pc.Invalidating?
  {
    Move(s, t, Invalidating(s.threads[t].pc.left - {d})).(cache := s.cache - {d})
  }

  function DoInvalidateAll(s: State, t: Tid): State
    requires Present(s, t)
  {
    Move(s, t, Invalidating({})).(cache := map[])
  }

  function DoReleaseWrite(s: State, t: Tid): State
    requires Present(s, t)
  {
    var retired := if s.threads[t].call.Retire? then s.retired + {s.threads[t].call.page} else s.retired;
    Move(s, t, Returned).(writer := None, retired := retired)
  }

  /** An empty page returns before it touches the gate. */
  function DoSkipEmpty(s: State, t: Tid): State
    requires Retiring(s, t)
  {
    Move(s, t, Returned).(retired := s.retired + {s.threads[t].call.page})
  }

  function DoReplicaCommit(s: State, p: PageId, rows: Rows, digests: set<Digest>, checkpoint: bool): State {
    s.(log := s.log + [Version(rows, Replicated(p), digests)], pages := s.pages[p := Page(digests, checkpoint)])
  }

  function DoExpire(s: State, d: Digest): State {
    s.(cache := s.cache - {d})
  }

  ghost predicate Enabled(s: State, step: Step) {
    && |s.log| > 0
    && match step
       case Begin(t, call) => t !in s.threads && (call.Retire? ==> call.page in s.pages)
       case LoadFlag(t) => Deciding(s, t) && At(s, t, Start)
       case AcquireRead(t) => Deciding(s, t) && (At(s, t, WantFlagGate) || At(s, t, WantRowGate)) && s.writer.None?
       case ReadFlag(t) => Deciding(s, t) && At(s, t, FlagGate)
       case PublishFlag(t) => Deciding(s, t) && s.threads[t].pc.FlagRead?
       case ReadRow(t) => Deciding(s, t) && At(s, t, RowGate)
       case PublishRow(t) => Deciding(s, t) && s.threads[t].pc.RowRead?
       case ReleaseRead(t) => Deciding(s, t) && (s.threads[t].pc.FlagPublished? || s.threads[t].pc.RowPublished?)
       case FailRead(t) => Deciding(s, t) && (At(s, t, FlagGate) || At(s, t, RowGate))
       case LookupCache(t) => Deciding(s, t) && At(s, t, Lookup)
       case AcquireWrite(t) => At(s, t, WantWrite) && s.writer.None? && s.readers == {}
       case ResetFlag(t) => (Writing(s, t) || Retiring(s, t)) && At(s, t, WriteGate)
       case Commit(t) => Writing(s, t) && At(s, t, FlagReset)
       case FailCommit(t) => Writing(s, t) && At(s, t, FlagReset)
       case Invalidate(t, d) => t in s.threads && s.threads[t].pc.Invalidating? && d in s.threads[t].pc.left
       case InvalidateAll(t) =>
         Retiring(s, t) && s.threads[t].pc.Invalidating? && s.pages[s.threads[t].call.page].checkpoint
       case ReleaseWrite(t) => At(s, t, Invalidating({})) || At(s, t, Aborting)
       case SkipEmpty(t) => Retiring(s, t) && At(s, t, WantWrite) && s.pages[s.threads[t].call.page] == Page({}, false)
       case ReplicaCommit(p, rows, digests, _) =>
         && p !in s.pages
         && forall d :: d !in digests ==> Answer(rows, d) == Answer(Store(s), d)
       case Expire(_) => true
  }

  ghost function Apply(s: State, step: Step): State
    requires Enabled(s, step)
  {
    match step
    case Begin(t, call) => DoBegin(s, t, call)
    case LoadFlag(t) => DoLoadFlag(s, t)
    case AcquireRead(t) => DoAcquireRead(s, t)
    case ReadFlag(t) => DoReadFlag(s, t)
    case PublishFlag(t) => DoPublishFlag(s, t)
    case ReadRow(t) => DoReadRow(s, t)
    case PublishRow(t) => DoPublishRow(s, t)
    case ReleaseRead(t) => DoReleaseRead(s, t)
    case FailRead(t) => DoFailRead(s, t)
    case LookupCache(t) => DoLookup(s, t)
    case AcquireWrite(t) => DoAcquireWrite(s, t)
    case ResetFlag(t) => DoResetFlag(s, t)
    case Commit(t) => DoCommit(s, t)
    case FailCommit(t) => Move(s, t, Aborting)
    case Invalidate(t, d) => DoInvalidate(s, t, d)
    case InvalidateAll(t) => DoInvalidateAll(s, t)
    case ReleaseWrite(t) => DoReleaseWrite(s, t)
    case SkipEmpty(t) => DoSkipEmpty(s, t)
    case ReplicaCommit(p, rows, digests, checkpoint) => DoReplicaCommit(s, p, rows, digests, checkpoint)
    case Expire(d) => DoExpire(s, d)
  }

  ghost predicate Init(s: State) {
    && |s.log| == 1 && s.log[0].source == Initial
    && s.flag == Unknown && s.cache == map[]
    && s.readers == {} && s.writer == None && s.threads == map[]
    && s.pages == map[] && s.retired == {}
  }

  ghost predicate Next(s: State, s': State) {
    exists step :: Enabled(s, step) && s' == Apply(s, step)
  }

  ghost predicate StepAt(run: seq<State>, i: nat)
    requires i + 1 < |run|
  {
    Next(run[i], run[i + 1])
  }

  /** A run: every interleaving of calls, replica commits and cache expiries. */
  ghost predicate IsRun(run: seq<State>) {
    && |run| > 0
    && Init(run[0])
    && forall i :: 0 <= i < |run| - 1 ==> StepAt(run, i)
  }

  // ---------------------------------------------------------------------------------------------
  // The invariant
  // ---------------------------------------------------------------------------------------------

  /** Version `k` came from a replicated page that `retired` does not yet contain. */
  predicate Outstanding(log: seq<Version>, k: nat, retired: set<PageId>)
    requires k < |log|
  {
    log[k].source.Replicated? && log[k].source.page !in retired
  }

  /** Everything committed after version `v` is a page still to be retired. */
  ghost predicate Fresh(log: seq<Version>, retired: set<PageId>, v: nat) {
    && v < |log|
    && forall k :: v < k < |log| && log[k].touched != {} ==> Outstanding(log, k, retired)
  }

  /** Every commit to `d` in versions `v + 1` through `upto` is a page outside `retired`. */
  ghost predicate Misses(log: seq<Version>, v: nat, upto: nat, d: Digest, retired: set<PageId>) {
    forall k :: v < k <= upto && k < |log| && d in log[k].touched ==> Outstanding(log, k, retired)
  }

  predicate HoldsRead(pc: Pc) {
    pc.FlagGate? || pc.FlagRead? || pc.FlagPublished? || pc.RowGate? || pc.RowRead? || pc.RowPublished?
  }

  predicate HoldsWrite(pc: Pc) {
    pc.WriteGate? || pc.FlagReset? || pc.Invalidating? || pc.Aborting?
  }

  ghost predicate ChangesOnlyTouched(log: seq<Version>, k: nat)
    requires 0 < k < |log|
  {
    forall d :: d !in log[k].touched ==> Answer(log[k].rows, d) == Answer(log[k - 1].rows, d)
  }

  ghost predicate LogOk(s: State) {
    && |s.log| > 0
    && s.retired <= s.pages.Keys
    && (forall k :: 0 < k < |s.log| ==> ChangesOnlyTouched(s.log, k))
    && (forall k :: 0 <= k < |s.log| && s.log[k].source.Replicated? ==>
          s.log[k].source.page in s.pages && s.log[k].touched == s.pages[s.log[k].source.page].digests)
  }

  ghost predicate GateOk(s: State) {
    && (s.writer.Some? ==> s.readers == {})
    && (forall t :: t in s.readers ==> t in s.threads && HoldsRead(s.threads[t].pc))
    && (forall t :: t in s.threads && HoldsRead(s.threads[t].pc) ==> t in s.readers)
    && (forall t :: t in s.threads && HoldsWrite(s.threads[t].pc) ==> s.writer == Some(t))
    && (s.writer.Some? ==> s.writer.value in s.threads && HoldsWrite(s.threads[s.writer.value].pc))
  }

  ghost predicate FlagOk(s: State)
    requires |s.log| > 0
  {
    && (s.flag.Known? ==>
          && Fresh(s.log, s.retired, s.flag.version)
          && s.flag.some == HasActive(s.log[s.flag.version].rows))
    // A writer past its reset keeps the flag unknown: only gate holders publish it.
    && (s.writer.Some? && s.writer.value in s.threads && !s.threads[s.writer.value].pc.WriteGate? ==> s.flag.Unknown?)
  }

  /** The gate-holding writer has committed `d` and not yet dropped its cached decision. */
  predicate InWindow(s: State, d: Digest) {
    && s.writer.Some? && s.writer.value in s.threads
    && s.threads[s.writer.value].pc.Invalidating? && d in s.threads[s.writer.value].pc.left
  }

  ghost predicate CacheOk(s: State) {
    forall d :: d in s.cache ==>
      && s.cache[d].version < |s.log|
      && s.cache[d].decision == Answer(s.log[s.cache[d].version].rows, d)
      && (InWindow(s, d) || Misses(s.log, s.cache[d].version, |s.log|, d, s.retired))
  }

  ghost predicate ThreadOk(s: State, t: Tid)
    requires t in s.threads && |s.log| > 0
  {
    var th := s.threads[t];
    && th.begun < |s.log|
    && th.retired <= s.retired
    && (th.call.Retire? ==> th.call.page in s.pages)
    && match th.pc
       case Start | WantFlagGate | FlagGate | WantRowGate | RowGate => th.call.Decide?
       case FlagRead(some, v) => th.call.Decide? && Fresh(s.log, s.retired, v) && some == HasActive(s.log[v].rows)
       case FlagPublished(some, v) => th.call.Decide? && Fresh(s.log, s.retired, v) && some == HasActive(s.log[v].rows)
       case Lookup =>
         && th.call.Decide?
         && (th.call.digest in s.cache ==>
               Misses(s.log, s.cache[th.call.digest].version, th.begun, th.call.digest, th.retired))
       case RowRead(decision, v) =>
         th.call.Decide? && Fresh(s.log, s.retired, v) && decision == Answer(s.log[v].rows, th.call.digest)
       case RowPublished(decision, v) =>
         th.call.Decide? && Fresh(s.log, s.retired, v) && decision == Answer(s.log[v].rows, th.call.digest)
       case Answered(decision, v, ended) =>
         && th.call.Decide?
         && v <= ended < |s.log| && th.begun <= ended
         && decision == Answer(s.log[v].rows, th.call.digest)
         && Misses(s.log, v, th.begun, th.call.digest, th.retired)
       case WantWrite | WriteGate => !th.call.Decide?
       case FlagReset | Aborting => th.call.Put? || th.call.Lift?
       case Invalidating(left) =>
         && !th.call.Decide?
         && (th.call.Retire? ==>
               forall d :: d in s.pages[th.call.page].digests && d !in left ==> d !in s.cache)
       case Returned => true
  }

  ghost predicate Inv(s: State) {
    && LogOk(s)
    && GateOk(s)
    && FlagOk(s)
    && CacheOk(s)
    && forall t :: t in s.threads ==> ThreadOk(s, t)
  }

  // ---------------------------------------------------------------------------------------------
  // Preservation, one step at a time
  // ---------------------------------------------------------------------------------------------

  lemma InitInv(s: State)
    requires Init(s)
    ensures Inv(s)
  {
  }

  /** `s'` differs from `s` in thread `t`, and no cached decision is new except one just read. */
  ghost predicate OnlyThread(s: State, s': State, t: Tid) {
    && s'.threads.Keys == s.threads.Keys + {t}
    && (forall u :: u in s.threads && u != t ==> s'.threads[u] == s.threads[u])
  }

  /**
    A step that leaves thread `u` where it is keeps what the invariant says of it, provided the log
    only grows, what was fresh for a gate holder stays fresh, and a cached decision a thread is about
    to look up is old, gone, or missed nothing that is retired.
  */
  lemma FrameThread(s: State, s': State, u: Tid)
    requires |s.log| > 0 && u in s.threads && ThreadOk(s, u)
    requires u in s'.threads && s'.threads[u] == s.threads[u]
    requires s.log <= s'.log && s.retired <= s'.retired
    requires forall p :: p in s.pages ==> p in s'.pages && s'.pages[p] == s.pages[p]
    requires HoldsRead(s.threads[u].pc) ==>
               forall v :: Fresh(s.log, s.retired, v) ==> Fresh(s'.log, s'.retired, v)
    requires forall d :: d in s'.cache ==>
      || (d in s.cache && s'.cache[d] == s.cache[d])
      || (!HoldsWrite(s.threads[u].pc) && Misses(s'.log, s'.cache[d].version, |s'.log|, d, s'.retired))
    ensures ThreadOk(s', u)
  {
    var th := s.threads[u];
    if th.pc.Lookup? && th.call.digest in s'.cache {
      var d := th.call.digest;
      if d in s.cache && s'.cache[d] == s.cache[d] {
        assert Misses(s.log, s.cache[d].version, th.begun, d, th.retired);
      }
      assert Misses(s'.log, s'.cache[d].version, th.begun, d, th.retired);
    }
    if th.pc.Answered? {
      assert Misses(s'.log, th.pc.version, th.begun, th.call.digest, th.retired);
    }
  }

  /** A step over an unchanged store: what remains to show is the gate, the flag, the cache and thread `t`. */
  lemma QuietStep(s: State, s': State, t: Tid)
    requires Inv(s) && OnlyThread(s, s', t)
    requires s'.log == s.log && s'.pages == s.pages && s'.retired == s.retired
    requires s'.cache.Keys <= s.cache.Keys && forall d :: d in s'.cache ==> s'.cache[d] == s.cache[d]
    requires GateOk(s') && FlagOk(s') && CacheOk(s') && t in s'.threads && ThreadOk(s', t)
    ensures Inv(s')
  {
    forall u | u in s'.threads ensures ThreadOk(s', u) {
      if u != t { FrameThread(s, s', u); }
    }
  }

  /** While no local writer is inside its window, every cached decision missed only outstanding pages. */
  lemma CacheSettled(s: State, d: Digest)
    requires Inv(s) && d in s.cache && !InWindow(s, d)
    ensures Misses(s.log, s.cache[d].version, |s.log|, d, s.retired)
  {
  }

  /** What a thread that is about to look `d` up will find missed nothing retired before its call. */
  lemma SettledForLookup(s: State, t: Tid)
    requires Inv(s) && t in s.threads && s.threads[t].call.Decide?
    requires s.flag.Known? || s.writer.None?
    ensures var th := s.threads[t];
      th.call.digest in s.cache ==>
        Misses(s.log, s.cache[th.call.digest].version, th.begun, th.call.digest, th.retired)
  {
    var d := s.threads[t].call.digest;
    assert ThreadOk(s, t);
    if d in s.cache {
      CacheSettled(s, d);
    }
  }

  /** A fresh version misses nothing retired before the call, whatever the digest. */
  lemma FreshMisses(s: State, t: Tid, v: nat, d: Digest)
    requires Inv(s) && t in s.threads && Fresh(s.log, s.retired, v)
    ensures Misses(s.log, v, s.threads[t].begun, d, s.threads[t].retired)
    ensures Misses(s.log, v, |s.log|, d, s.retired)
  {
    assert ThreadOk(s, t);
  }

  /** The log grows by one version that changes only what it touches. */
  lemma ExtendLog(log: seq<Version>, version: Version)
    requires |log| > 0
    requires forall k :: 0 < k < |log| ==> ChangesOnlyTouched(log, k)
    requires forall d :: d !in version.touched ==> Answer(version.rows, d) == Answer(log[|log| - 1].rows, d)
    ensures var log' := log + [version]; forall k :: 0 < k < |log'| ==> ChangesOnlyTouched(log', k)
  {
    var log' := log + [version];
    forall k | 0 < k < |log'| ensures ChangesOnlyTouched(log', k) {
      if k < |log| { assert ChangesOnlyTouched(log, k); }
    }
  }

  /** A thread that changes its program counter without touching the gate. */
  lemma GateKept(s: State, s': State, t: Tid)
    requires GateOk(s) && OnlyThread(s, s', t)
    requires s'.readers == s.readers && s'.writer == s.writer
    requires t in s'.threads
    requires t in s.threads ==>
      && HoldsRead(s'.threads[t].pc) == HoldsRead(s.threads[t].pc)
      && HoldsWrite(s'.threads[t].pc) == HoldsWrite(s.threads[t].pc)
    requires t !in s.threads ==> !HoldsRead(s'.threads[t].pc) && !HoldsWrite(s'.threads[t].pc)
    ensures GateOk(s')
  {
  }

  /** The cache only lost entries, and no writer left its window. */
  lemma CacheKept(s: State, s': State)
    requires CacheOk(s) && s'.log == s.log && s'.retired == s.retired
    requires s'.cache.Keys <= s.cache.Keys && forall d :: d in s'.cache ==> s'.cache[d] == s.cache[d]
    requires forall d :: d in s'.cache && InWindow(s, d) ==> InWindow(s', d)
    ensures CacheOk(s')
  {
  }

  /** A thread outside the exclusive section moves on without publishing anything. */
  lemma LocalMove(s: State, t: Tid, pc: Pc)
    requires Inv(s) && t in s.threads && ThreadOk(Move(s, t, pc), t)
    requires HoldsRead(pc) == HoldsRead(s.threads[t].pc)
    requires !HoldsWrite(pc) && !HoldsWrite(s.threads[t].pc)
    ensures Inv(Move(s, t, pc))
  {
    var s' := Move(s, t, pc);
    GateKept(s, s', t);
    CacheKept(s, s');
    QuietStep(s, s', t);
  }

  /** The exclusive section: no other thread is between its store read and its publication. */
  lemma ExclusiveStep(s: State, s': State, t: Tid)
    requires Inv(s) && OnlyThread(s, s', t) && t in s.threads && HoldsWrite(s.threads[t].pc)
    requires s.log <= s'.log && s.retired <= s'.retired && s'.pages == s.pages && s'.cache == s.cache
    ensures forall u :: u in s'.threads && u != t ==> ThreadOk(s', u)
  {
    forall u | u in s'.threads && u != t ensures ThreadOk(s', u) {
      assert s.writer == Some(t);
      assert !HoldsRead(s.threads[u].pc);
      FrameThread(s, s', u);
    }
  }

  lemma BeginInv(s: State, t: Tid, call: Call)
    requires Inv(s) && t !in s.threads && (call.Retire? ==> call.page in s.pages)
    ensures Inv(DoBegin(s, t, call))
  {
    var s' := DoBegin(s, t, call);
    GateKept(s, s', t);
    QuietStep(s, s', t);
  }

  lemma LoadFlagAnswer(s: State, t: Tid)
    requires Inv(s) && Deciding(s, t) && At(s, t, Start)
    ensures ThreadOk(DoLoadFlag(s, t), t)
  {
    assert ThreadOk(s, t);
    if s.flag.Known? && s.flag.some {
      SettledForLookup(s, t);
    } else if s.flag.Known? {
      FreshMisses(s, t, s.flag.version, s.threads[t].call.digest);
    }
  }

  lemma LoadFlagInv(s: State, t: Tid)
    requires Inv(s) && Deciding(s, t) && At(s, t, Start)
    ensures Inv(DoLoadFlag(s, t))
  {
    var s' := DoLoadFlag(s, t);
    LoadFlagAnswer(s, t);
    LocalMove(s, t, s'.threads[t].pc);
  }

  lemma AcquireReadInv(s: State, t: Tid)
    requires Inv(s) && Deciding(s, t) && (At(s, t, WantFlagGate) || At(s, t, WantRowGate)) && s.writer.None?
    ensures Inv(DoAcquireRead(s, t))
  {
    assert ThreadOk(s, t);
    QuietStep(s, DoAcquireRead(s, t), t);
  }

  lemma ReadFlagInv(s: State, t: Tid)
    requires Inv(s) && Deciding(s, t) && At(s, t, FlagGate)
    ensures Inv(DoReadFlag(s, t))
  {
    assert ThreadOk(s, t);
    LocalMove(s, t, DoReadFlag(s, t).threads[t].pc);
  }

  lemma PublishFlagInv(s: State, t: Tid)
    requires Inv(s) && Deciding(s, t) && s.threads[t].pc.FlagRead?
    ensures Inv(DoPublishFlag(s, t))
  {
    var s' := DoPublishFlag(s, t);
    assert ThreadOk(s, t);
    GateKept(s, s', t);
    QuietStep(s, s', t);
  }

  lemma ReadRowInv(s: State, t: Tid)
    requires Inv(s) && Deciding(s, t) && At(s, t, RowGate)
    ensures Inv(DoReadRow(s, t))
  {
    assert ThreadOk(s, t);
    LocalMove(s, t, DoReadRow(s, t).threads[t].pc);
  }

  lemma PublishRowInv(s: State, t: Tid)
    requires Inv(s) && Deciding(s, t) && s.threads[t].pc.RowRead?
    ensures Inv(DoPublishRow(s, t))
  {
    var s' := DoPublishRow(s, t);
    PublishRowCache(s, t);
    GateKept(s, s', t);
    hide Answer, HasActive;
    assert ThreadOk(s, t);
    forall u | u in s'.threads && u != t ensures ThreadOk(s', u) { FrameThread(s, s', u); }
  }

  lemma PublishRowCache(s: State, t: Tid)
    requires Inv(s) && Deciding(s, t) && s.threads[t].pc.RowRead?
    ensures CacheOk(DoPublishRow(s, t))
    ensures Misses(s.log, s.threads[t].pc.version, |s.log|, s.threads[t].call.digest, s.retired)
  {
    hide HasActive;
    assert ThreadOk(s, t);
    FreshMisses(s, t, s.threads[t].pc.version, s.threads[t].call.digest);
  }

  lemma ReleaseReadAnswer(s: State, t: Tid)
    requires Inv(s) && Deciding(s, t) && (s.threads[t].pc.FlagPublished? || s.threads[t].pc.RowPublished?)
    ensures ThreadOk(DoReleaseRead(s, t), t)
  {
    assert ThreadOk(s, t);
    if s.threads[t].pc.FlagPublished? && s.threads[t].pc.some {
      SettledForLookup(s, t);
    } else {
      FreshMisses(s, t, s.threads[t].pc.version, s.threads[t].call.digest);
    }
  }

  lemma ReleaseReadInv(s: State, t: Tid)
    requires Inv(s) && Deciding(s, t) && (s.threads[t].pc.FlagPublished? || s.threads[t].pc.RowPublished?)
    ensures Inv(DoReleaseRead(s, t))
  {
    var s' := DoReleaseRead(s, t);
    ReleaseReadAnswer(s, t);
    CacheKept(s, s');
    QuietStep(s, s', t);
  }

  lemma FailReadInv(s: State, t: Tid)
    requires Inv(s) && Deciding(s, t) && (At(s, t, FlagGate) || At(s, t, RowGate))
    ensures Inv(DoFailRead(s, t))
  {
    assert ThreadOk(s, t);
    QuietStep(s, DoFailRead(s, t), t);
  }

  lemma LookupCacheInv(s: State, t: Tid)
    requires Inv(s) && Deciding(s, t) && At(s, t, Lookup)
    ensures Inv(DoLookup(s, t))
  {
    assert ThreadOk(s, t);
    LocalMove(s, t, DoLookup(s, t).threads[t].pc);
  }

  lemma AcquireWriteInv(s: State, t: Tid)
    requires Inv(s) && At(s, t, WantWrite) && s.writer.None? && s.readers == {}
    ensures Inv(DoAcquireWrite(s, t))
  {
    assert ThreadOk(s, t);
    QuietStep(s, DoAcquireWrite(s, t), t);
  }

  lemma ResetFlagInv(s: State, t: Tid)
    requires Inv(s) && (Writing(s, t) || Retiring(s, t)) && At(s, t, WriteGate)
    ensures Inv(DoResetFlag(s, t))
  {
    var s' := DoResetFlag(s, t);
    assert ThreadOk(s, t);
    GateKept(s, s', t);
    QuietStep(s, s', t);
  }

  /** The committed digest is the one digest whose cached decision may now be out of date. */
  lemma CommitKeepsLogAndCache(s: State, t: Tid)
    requires Inv(s) && Writing(s, t) && At(s, t, FlagReset)
    ensures LogOk(DoCommit(s, t)) && CacheOk(DoCommit(s, t))
  {
    var s' := DoCommit(s, t);
    if s'.log != s.log { ExtendLog(s.log, s'.log[|s.log|]); }
    var d := s.threads[t].call.digest;
    assert s.writer == Some(t);
    forall e | e in s'.cache && e != d
      ensures Misses(s'.log, s'.cache[e].version, |s'.log|, e, s'.retired)
    {
      CacheSettled(s, e);
    }
  }

  lemma CommitInv(s: State, t: Tid)
    requires Inv(s) && Writing(s, t) && At(s, t, FlagReset)
    ensures Inv(DoCommit(s, t))
  {
    var s' := DoCommit(s, t);
    assert ThreadOk(s, t);
    GateKept(s, s', t);
    CommitKeepsLogAndCache(s, t);
    ExclusiveStep(s, s', t);
  }

  lemma FailCommitInv(s: State, t: Tid)
    requires Inv(s) && Writing(s, t) && At(s, t, FlagReset)
    ensures Inv(Move(s, t, Aborting))
  {
    var s' := Move(s, t, Aborting);
    assert ThreadOk(s, t);
    GateKept(s, s', t);
    QuietStep(s, s', t);
  }

  lemma InvalidateInv(s: State, t: Tid, d: Digest)
    requires Inv(s) && t in s.threads && s.threads[t].pc.Invalidating?
    ensures Inv(DoInvalidate(s, t, d))
  {
    var s' := DoInvalidate(s, t, d);
    assert ThreadOk(s, t);
    GateKept(s, s', t);
    QuietStep(s, s', t);
  }

  lemma InvalidateAllInv(s: State, t: Tid)
    requires Inv(s) && Retiring(s, t) && s.threads[t].pc.Invalidating?
    ensures Inv(DoInvalidateAll(s, t))
  {
    var s' := DoInvalidateAll(s, t);
    assert ThreadOk(s, t);
    GateKept(s, s', t);
    QuietStep(s, s', t);
  }

  lemma ReleaseWriteGate(s: State, t: Tid)
    requires GateOk(s) && Present(s, t) && HoldsWrite(s.threads[t].pc)
    ensures GateOk(DoReleaseWrite(s, t))
  {
  }

  lemma ReleaseWriteCache(s: State, t: Tid)
    requires Inv(s) && (At(s, t, Invalidating({})) || At(s, t, Aborting))
    ensures CacheOk(DoReleaseWrite(s, t))
  {
    var s' := DoReleaseWrite(s, t);
    assert ThreadOk(s, t);
    forall d | d in s'.cache ensures Misses(s'.log, s'.cache[d].version, |s'.log|, d, s'.retired) {
      CacheSettled(s, d);
    }
  }

  /** Retiring a page is sound because its digests are gone from the cache and the flag is unknown. */
  lemma ReleaseWriteInv(s: State, t: Tid)
    requires Inv(s) && (At(s, t, Invalidating({})) || At(s, t, Aborting))
    ensures Inv(DoReleaseWrite(s, t))
  {
    var s' := DoReleaseWrite(s, t);
    assert ThreadOk(s', t) by { assert ThreadOk(s, t); }
    assert LogOk(s') by { assert ThreadOk(s, t); }
    ExclusiveStep(s, s', t);
    ReleaseWriteGate(s, t);
    ReleaseWriteCache(s, t);
  }

  /** A page that touches nothing was never what kept a version fresh. */
  lemma SkipEmptyFresh(s: State, t: Tid)
    requires Inv(s) && Retiring(s, t) && s.pages[s.threads[t].call.page] == Page({}, false)
    ensures var s' := DoSkipEmpty(s, t);
      && (forall v :: Fresh(s.log, s.retired, v) ==> Fresh(s'.log, s'.retired, v))
      && (forall v, d :: Misses(s.log, v, |s.log|, d, s.retired) ==> Misses(s'.log, v, |s'.log|, d, s'.retired))
  {
  }

  lemma SkipEmptyInv(s: State, t: Tid)
    requires Inv(s) && Retiring(s, t) && At(s, t, WantWrite) && s.pages[s.threads[t].call.page] == Page({}, false)
    ensures Inv(DoSkipEmpty(s, t))
  {
    var s' := DoSkipEmpty(s, t);
    assert ThreadOk(s', t) by { assert ThreadOk(s, t); }
    GateKept(s, s', t);
    SkipEmptyFresh(s, t);
    forall u | u in s'.threads && u != t ensures ThreadOk(s', u) { FrameThread(s, s', u); }
  }

  lemma ReplicaCommitInv(s: State, p: PageId, rows: Rows, digests: set<Digest>, checkpoint: bool)
    requires Inv(s) && p !in s.pages
    requires forall d :: d !in digests ==> Answer(rows, d) == Answer(Store(s), d)
    ensures Inv(DoReplicaCommit(s, p, rows, digests, checkpoint))
  {
    var s' := DoReplicaCommit(s, p, rows, digests, checkpoint);
    ExtendLog(s.log, Version(rows, Replicated(p), digests));
    forall v | Fresh(s.log, s.retired, v) ensures Fresh(s'.log, s'.retired, v) {}
    forall u | u in s.threads ensures ThreadOk(s', u) { FrameThread(s, s', u); }
  }

  lemma ExpireInv(s: State, d: Digest)
    requires Inv(s)
    ensures Inv(DoExpire(s, d))
  {
    var s' := DoExpire(s, d);
    forall u | u in s.threads ensures ThreadOk(s', u) { FrameThread(s, s', u); }
  }

  lemma LogNotEmpty(s: State)
    requires Inv(s)
    ensures |s.log| > 0
  {
  }

  lemma NextInv(s: State, step: Step)
    requires Inv(s) && Enabled(s, step)
    ensures Inv(Apply(s, step))
  {
    hide Inv;
    LogNotEmpty(s);
    match step
    case Begin(t, call) => BeginInv(s, t, call);
    case LoadFlag(t) => LoadFlagInv(s, t);
    case AcquireRead(t) => AcquireReadInv(s, t);
    case ReadFlag(t) => ReadFlagInv(s, t);
    case PublishFlag(t) => PublishFlagInv(s, t);
    case ReadRow(t) => ReadRowInv(s, t);
    case PublishRow(t) => PublishRowInv(s, t);
    case ReleaseRead(t) => ReleaseReadInv(s, t);
    case FailRead(t) => FailReadInv(s, t);
    case LookupCache(t) => LookupCacheInv(s, t);
    case AcquireWrite(t) => AcquireWriteInv(s, t);
    case ResetFlag(t) => ResetFlagInv(s, t);
    case Commit(t) => CommitInv(s, t);
    case FailCommit(t) => FailCommitInv(s, t);
    case Invalidate(t, d) => InvalidateInv(s, t, d);
    case InvalidateAll(t) => InvalidateAllInv(s, t);
    case ReleaseWrite(t) => ReleaseWriteInv(s, t);
    case SkipEmpty(t) => SkipEmptyInv(s, t);
    case ReplicaCommit(p, rows, digests, checkpoint) => ReplicaCommitInv(s, p, rows, digests, checkpoint);
    case Expire(d) => ExpireInv(s, d);
  }

  // ---------------------------------------------------------------------------------------------
  // What every run keeps
  // ---------------------------------------------------------------------------------------------

  lemma {:induction false} RunInv(run: seq<State>, i: nat)
    requires IsRun(run) && i < |run|
    ensures Inv(run[i])
  {
    if i == 0 {
      InitInv(run[0]);
    } else {
      RunInv(run, i - 1);
      assert StepAt(run, i - 1);
      var step :| Enabled(run[i - 1], step) && run[i] == Apply(run[i - 1], step);
      NextInv(run[i - 1], step);
    }
  }

  /** A page whose digests the cache may still answer wrongly. */
  ghost predicate AwaitsRetirement(s: State, p: PageId) {
    p in s.pages && p !in s.retired && s.pages[p].digests != {}
  }

  lemma {:induction false} SameAnswer(log: seq<Version>, a: nat, b: nat, d: Digest)
    requires a <= b < |log|
    requires forall k :: 0 < k < |log| ==> ChangesOnlyTouched(log, k)
    requires forall k :: a < k <= b ==> d !in log[k].touched
    ensures Answer(log[a].rows, d) == Answer(log[b].rows, d)
  {
    if a < b {
      SameAnswer(log, a, b - 1, d);
      assert ChangesOnlyTouched(log, b);
    }
  }

  /**
    Coherence.  In every state of every run the flag is unknown or right unless a replicated page
    awaits retirement, and a cached decision is right unless its digest awaits retirement or the
    gate-holding writer has committed it and not yet dropped it.
  */
  lemma Coherence(run: seq<State>, i: nat)
    requires IsRun(run) && i < |run|
    ensures var s := run[i];
      && |s.log| > 0
      && (s.flag.Known? && s.flag.some != HasActive(Store(s)) ==> exists p :: AwaitsRetirement(s, p))
      && (forall d :: d in s.cache && s.cache[d].decision != Answer(Store(s), d) && !InWindow(s, d) ==>
            exists p :: AwaitsRetirement(s, p) && d in s.pages[p].digests)
  {
    RunInv(run, i);
    var s := run[i];
    if s.flag.Known? && !(exists p :: AwaitsRetirement(s, p)) {
      FlagCoherent(s);
    }
    forall d | d in s.cache && s.cache[d].decision != Answer(Store(s), d) && !InWindow(s, d)
      ensures exists p :: AwaitsRetirement(s, p) && d in s.pages[p].digests
    {
      var v := s.cache[d].version;
      CacheSettled(s, d);
      if forall k :: v < k <= Now(s) ==> d !in s.log[k].touched {
        SameAnswer(s.log, v, Now(s), d);
        assert false;
      }
      var k :| v < k <= Now(s) && d in s.log[k].touched;
      assert Outstanding(s.log, k, s.retired);
      assert AwaitsRetirement(s, s.log[k].source.page);
    }
  }

  lemma FlagCoherent(s: State)
    requires Inv(s) && s.flag.Known? && !(exists p :: AwaitsRetirement(s, p))
    ensures s.flag.some == HasActive(Store(s))
  {
    var v := s.flag.version;
    forall d ensures Answer(s.log[v].rows, d) == Answer(Store(s), d) {
      forall k | v < k <= Now(s) ensures d !in s.log[k].touched {
        if d in s.log[k].touched {
          assert AwaitsRetirement(s, s.log[k].source.page);
        }
      }
      SameAnswer(s.log, v, Now(s), d);
    }
    if s.flag.some {
      var d :| d in s.log[v].rows && Answer(s.log[v].rows, d) == Revoked;
      assert Answer(Store(s), d) == Revoked;
    }
  }

  /** What a step never undoes. */
  ghost predicate Extends(s: State, s': State) {
    && s.log <= s'.log && s.retired <= s'.retired
    && forall t :: t in s.threads ==>
         && t in s'.threads
         && s'.threads[t].call == s.threads[t].call
         && s'.threads[t].begun == s.threads[t].begun
         && s'.threads[t].retired == s.threads[t].retired
  }

  /** A step of a decision, which leaves the store and the retired pages alone. */
  predicate Reads(step: Step) {
    || step.LoadFlag? || step.AcquireRead? || step.ReadFlag? || step.PublishFlag? || step.ReadRow? || step.PublishRow?
    || step.ReleaseRead? || step.FailRead? || step.LookupCache?
  }

  lemma ReadExtends(s: State, step: Step)
    requires Enabled(s, step) && Reads(step)
    ensures Extends(s, Apply(s, step)) && Apply(s, step).log == s.log
  {
    hide HasActive, Answer;
  }

  lemma StepExtends(s: State, step: Step)
    requires Enabled(s, step)
    ensures Extends(s, Apply(s, step)) && |Apply(s, step).log| <= |s.log| + 1
  {
    if Reads(step) {
      hide *;
      ReadExtends(s, step);
    } else {
      hide HasActive, Answer;
    }
  }

  lemma NextExtends(s: State, s': State)
    requires Next(s, s')
    ensures Extends(s, s') && |s'.log| <= |s.log| + 1
  {
    var step :| Enabled(s, step) && s' == Apply(s, step);
    StepExtends(s, step);
  }

  lemma ExtendsTransitive(a: State, b: State, c: State)
    requires Extends(a, b) && Extends(b, c)
    ensures Extends(a, c)
  {
  }

  /** A thread appears only when its call begins. */
  lemma NextBegins(s: State, s': State, t: Tid)
    requires Next(s, s') && t !in s.threads && t in s'.threads
    ensures |s.log| > 0 && s'.threads[t].begun == Now(s) && s'.threads[t].retired == s.retired
  {
    var step :| Enabled(s, step) && s' == Apply(s, step);
    StepBegins(s, step, t);
  }

  lemma StepBegins(s: State, step: Step, t: Tid)
    requires Enabled(s, step) && t !in s.threads && t in Apply(s, step).threads
    ensures step.Begin? && step.t == t
  {
  }

  lemma {:induction false} RunExtends(run: seq<State>, i: nat, j: nat)
    requires IsRun(run) && i <= j < |run|
    ensures Extends(run[i], run[j])
  {
    if i < j {
      RunExtends(run, i, j - 1);
      assert StepAt(run, j - 1);
      NextExtends(run[j - 1], run[j]);
      ExtendsTransitive(run[i], run[j - 1], run[j]);
    }
  }

  /** The log grows one version at a time, so every version was the store at some instant. */
  lemma {:induction false} VersionWasStore(run: seq<State>, i: nat, j: nat, k: nat) returns (m: nat)
    requires IsRun(run) && i <= j < |run|
    requires |run[i].log| <= k + 1 <= |run[j].log|
    ensures i <= m <= j && |run[m].log| == k + 1
    ensures Store(run[m]) == run[j].log[k].rows
  {
    if |run[j].log| == k + 1 {
      m := j;
    } else {
      assert StepAt(run, j - 1);
      NextExtends(run[j - 1], run[j]);
      m := VersionWasStore(run, i, j - 1, k);
    }
  }

  /** Call `t` asks about `d`: it is not there in state `i`, begins in the next step, and has answered by state `j`. */
  ghost predicate Asked(run: seq<State>, i: nat, j: nat, t: Tid, d: Digest) {
    && i < j < |run|
    && t !in run[i].threads
    && t in run[i + 1].threads && run[i + 1].threads[t].call == Decide(d)
    && t in run[j].threads && run[j].threads[t].pc.Answered?
  }

  lemma AskedSince(run: seq<State>, i: nat, j: nat, t: Tid, d: Digest)
    requires IsRun(run) && Asked(run, i, j, t, d)
    ensures Inv(run[i]) && Inv(run[j]) && Extends(run[i], run[j]) && ThreadOk(run[j], t)
    ensures var th := run[j].threads[t];
      th.call == Decide(d) && th.begun == |run[i].log| - 1 && th.retired == run[i].retired
  {
    RunInv(run, i);
    RunInv(run, j);
    RunExtends(run, i, j);
    RunExtends(run, i + 1, j);
    assert StepAt(run, i);
    NextBegins(run[i], run[i + 1], t);
  }

  /**
    Linearizability.  When no replicated page that wrote `d` awaits retirement as the call begins, the value
    it returns was the store's own answer at some instant between its first step and its return.
  */
  lemma Linearizable(run: seq<State>, i: nat, j: nat, t: Tid, d: Digest)
    requires IsRun(run) && Asked(run, i, j, t, d)
    requires forall p :: AwaitsRetirement(run[i], p) ==> d !in run[i].pages[p].digests
    ensures exists m ::
      i <= m <= j && |run[m].log| > 0 && Answer(Store(run[m]), d) == run[j].threads[t].pc.decision
  {
    AskedSince(run, i, j, t, d);
    var th, log := run[j].threads[t], run[j].log;
    var v := th.pc.version;
    var k := if v < th.begun then th.begun else v;
    if v < th.begun {
      forall n | v < n <= k ensures d !in log[n].touched {
        assert log[n] == run[i].log[n];
        if d in log[n].touched {
          assert Outstanding(log, n, th.retired);
          assert AwaitsRetirement(run[i], log[n].source.page);
        }
      }
      SameAnswer(log, v, k, d);
    }
    var m := VersionWasStore(run, i, j, k);
  }

  /**
    An answer is never older than a commit it had to see.  If the step out of state `a` committed a
    version that touches `d`, and that commit was local or its page was retired before the call began,
    the answer was the store's at some instant after that commit.
  */
  lemma NeverOlder(run: seq<State>, a: nat, i: nat, j: nat, t: Tid, d: Digest)
    requires IsRun(run) && a < i && Asked(run, i, j, t, d)
    requires |run[a + 1].log| == |run[a].log| + 1
    requires d in run[a + 1].log[|run[a].log|].touched
    requires var source := run[a + 1].log[|run[a].log|].source;
      source == Local || (source.Replicated? && source.page in run[i].retired)
    ensures exists m ::
      a < m <= j && |run[m].log| > 0 && Answer(Store(run[m]), d) == run[j].threads[t].pc.decision
  {
    AskedSince(run, i, j, t, d);
    RunExtends(run, a + 1, i);
    RunExtends(run, a + 1, j);
    var th, c := run[j].threads[t], |run[a].log|;
    assert run[j].log[c] == run[a + 1].log[c];
    assert !Outstanding(run[j].log, c, th.retired);
    assert th.pc.version >= c;
    var m := VersionWasStore(run, a + 1, j, th.pc.version);
  }

  /** The step lifts `d`, or is a replica commit that writes it. */
  predicate Unsettles(step: Step, s: State, d: Digest) {
    || (step.Commit? && step.t in s.threads && s.threads[step.t].call == Lift(d))
    || (step.ReplicaCommit? && d in step.digests)
  }

  /** The step between two states of a run is one that leaves `d` alone, or puts it. */
  ghost predicate Spares(s: State, s': State, d: Digest) {
    forall step :: Enabled(s, step) && s' == Apply(s, step) ==> !Unsettles(step, s, d)
  }

  lemma StepKeepsRevoked(s: State, step: Step, d: Digest)
    requires Enabled(s, step) && Answer(Store(s), d) == Revoked && !Unsettles(step, s, d)
    ensures |Apply(s, step).log| > 0 && Answer(Store(Apply(s, step)), d) == Revoked
  {
    hide HasActive;
  }

  /** A revoked digest stays revoked until it is lifted or a replica commit writes it. */
  lemma {:induction false} StaysRevoked(run: seq<State>, a: nat, j: nat, d: Digest)
    requires IsRun(run) && a <= j < |run| && |run[a].log| > 0 && Answer(Store(run[a]), d) == Revoked
    requires forall m :: a <= m < j ==> SparesAt(run, m, d)
    ensures |run[j].log| > 0 && Answer(Store(run[j]), d) == Revoked
    decreases j - a
  {
    hide Enabled, Apply, Unsettles;
    if a < j {
      StaysRevoked(run, a, j - 1, d);
      assert StepAt(run, j - 1) && SparesAt(run, j - 1, d);
      var step :| Enabled(run[j - 1], step) && run[j] == Apply(run[j - 1], step);
      StepKeepsRevoked(run[j - 1], step, d);
    }
  }

  ghost predicate SparesAt(run: seq<State>, i: nat, d: Digest)
    requires i + 1 < |run|
  {
    Spares(run[i], run[i + 1], d)
  }

  /**
    Once `put` has run its transaction on `d`, whether or not the row was already active, a decision begun
    afterwards is Revoked until `d` is lifted or a replica commit writes it, whatever pages are still to be
    retired.
  */
  lemma PutIsSeen(run: seq<State>, a: nat, i: nat, j: nat, w: Tid, t: Tid, d: Digest)
    requires IsRun(run) && a < i && Asked(run, i, j, t, d)
    requires Writing(run[a], w) && run[a].threads[w].call == Put(d) && run[a + 1] == DoCommit(run[a], w)
    requires forall m :: a < m < j ==> SparesAt(run, m, d)
    ensures run[j].threads[t].pc.decision == Revoked
  {
    NeverOlder(run, a, i, j, t, d);
    var m :| a < m <= j && |run[m].log| > 0 && Answer(Store(run[m]), d) == run[j].threads[t].pc.decision;
    StaysRevoked(run, a + 1, m, d);
  }

  /** What a row says: only an active one revokes. */
  lemma AnswerIff(rows: Rows, d: Digest)
    ensures Answer(rows, d) == Revoked <==> d in rows && rows[d] == Active
    ensures Answer(rows, d) == Clear <==> d !in rows || rows[d] == Lifted
  {
  }

  /** What the transaction of `put` or `lift` leaves in the store: an active row, or a lifted one where there was a row. */
  lemma CommitRows(s: State, w: Tid)
    requires Writing(s, w)
    ensures var call, before, after := s.threads[w].call, Store(s), Store(DoCommit(s, w));
      after == (if call.Put? then before[call.digest := Active]
                else if call.digest in before then before[call.digest := Lifted]
                else before)
  {
    AnswerIff(Store(s), s.threads[w].call.digest);
  }

  /** The store has no row for `d`, or a lifted one. */
  predicate Cleared(s: State, d: Digest) {
    |s.log| > 0 && (d !in s.log[|s.log| - 1].rows || s.log[|s.log| - 1].rows[d] == Lifted)
  }

  /** The step puts `d`, or is a replica commit that writes it. */
  predicate Revives(step: Step, s: State, d: Digest) {
    || (step.Commit? && step.t in s.threads && s.threads[step.t].call == Put(d))
    || (step.ReplicaCommit? && d in step.digests)
  }

  ghost predicate LeavesAt(run: seq<State>, i: nat, d: Digest)
    requires i + 1 < |run|
  {
    forall step :: Enabled(run[i], step) && run[i + 1] == Apply(run[i], step) ==> !Revives(step, run[i], d)
  }

  lemma StepKeepsCleared(s: State, step: Step, d: Digest)
    requires Enabled(s, step) && Cleared(s, d) && !Revives(step, s, d)
    ensures Cleared(Apply(s, step), d)
  {
    hide HasActive;
    if step.ReplicaCommit? {
      AnswerIff(Store(s), d);
      AnswerIff(step.rows, d);
    }
  }

  /** A digest with no active row has none until it is put or a replica commit writes it. */
  lemma {:induction false} StaysCleared(run: seq<State>, a: nat, j: nat, d: Digest)
    requires IsRun(run) && a <= j < |run| && Cleared(run[a], d)
    requires forall m :: a <= m < j ==> LeavesAt(run, m, d)
    ensures Cleared(run[j], d)
    decreases j - a
  {
    hide Enabled, Apply, Revives, Cleared;
    if a < j {
      StaysCleared(run, a, j - 1, d);
      assert StepAt(run, j - 1) && LeavesAt(run, j - 1, d);
      var step :| Enabled(run[j - 1], step) && run[j] == Apply(run[j - 1], step);
      StepKeepsCleared(run[j - 1], step, d);
    }
  }

  /** The transaction of `lift` leaves no active row. */
  lemma LiftClears(s: State, w: Tid, d: Digest)
    requires Writing(s, w) && s.threads[w].call == Lift(d)
    ensures Cleared(DoCommit(s, w), d)
  {
  }

  /**
    Once `lift` has run its transaction on `d`, a decision begun afterwards is Clear until `d` is put or a
    replica commit writes it.
  */
  lemma LiftIsSeen(run: seq<State>, a: nat, i: nat, j: nat, w: Tid, t: Tid, d: Digest)
    requires IsRun(run) && a < i && Asked(run, i, j, t, d)
    requires Writing(run[a], w) && run[a].threads[w].call == Lift(d) && run[a + 1] == DoCommit(run[a], w)
    requires forall m :: a < m < j ==> LeavesAt(run, m, d)
    ensures run[j].threads[t].pc.decision == Clear
  {
    NeverOlder(run, a, i, j, t, d);
    var m :| a < m <= j && |run[m].log| > 0 && Answer(Store(run[m]), d) == run[j].threads[t].pc.decision;
    LiftClears(run[a], w, d);
    StaysCleared(run, a + 1, m, d);
    AnswerIff(Store(run[m]), d);
  }

  /**
    The paths that avoid the gate and the store.  A flag known to be clear answers at once, a cached decision
    is the answer, and a row once read is cached.
  */
  lemma FastPaths(s: State, t: Tid)
    requires Deciding(s, t)
    ensures At(s, t, Start) && s.flag.Known? && !s.flag.some ==>
      var n := DoLoadFlag(s, t); n.threads[t].pc.Answered? && n.threads[t].pc.decision == Clear
    ensures At(s, t, Start) && s.flag.Known? && s.flag.some ==> At(DoLoadFlag(s, t), t, Lookup)
    ensures At(s, t, Lookup) && s.threads[t].call.digest in s.cache ==>
      var n := DoLookup(s, t);
      n.threads[t].pc.Answered? && n.threads[t].pc.decision == s.cache[s.threads[t].call.digest].decision
    ensures s.threads[t].pc.RowRead? ==>
      var n, d := DoPublishRow(s, t), s.threads[t].call.digest;
      d in n.cache && n.cache[d].decision == s.threads[t].pc.decision
    ensures s.threads[t].pc.FlagRead? ==>
      DoPublishFlag(s, t).flag == Known(s.threads[t].pc.some, s.threads[t].pc.version)
  {
  }

  /** A decision begun after `invalidate_replicated` returned is never older than the page it retired. */
  lemma RetiredPageIsSeen(run: seq<State>, a: nat, i: nat, j: nat, t: Tid, d: Digest, p: PageId,
                          rows: Rows, digests: set<Digest>, checkpoint: bool)
    requires IsRun(run) && a < i && Asked(run, i, j, t, d)
    requires run[a + 1] == DoReplicaCommit(run[a], p, rows, digests, checkpoint)
    requires d in digests && p in run[i].retired
    ensures exists m ::
      a < m <= j && |run[m].log| > 0 && Answer(Store(run[m]), d) == run[j].threads[t].pc.decision
  {
    NeverOlder(run, a, i, j, t, d);
  }

  // ---------------------------------------------------------------------------------------------
  // Runs to which the results apply
  // ---------------------------------------------------------------------------------------------

  ghost function Last(run: seq<State>): State
    requires run != []
  {
    run[|run| - 1]
  }

  /** Take one more step. */
  lemma Then(run: seq<State>, step: Step) returns (longer: seq<State>)
    requires IsRun(run) && Enabled(Last(run), step)
    ensures longer == run + [Apply(Last(run), step)] && IsRun(longer)
  {
    hide Enabled, Apply, Init;
    longer := run + [Apply(Last(run), step)];
    forall i | 0 <= i < |longer| - 1 ensures StepAt(longer, i) {
      if i < |run| - 1 {
        assert StepAt(run, i);
        assert longer[i] == run[i] && longer[i + 1] == run[i + 1];
      } else {
        assert Next(longer[i], longer[i + 1]);
      }
    }
  }

  /** Nothing is held, known or cached. */
  ghost predicate Quiet(s: State) {
    |s.log| > 0 && s.flag == Unknown && s.cache == map[] && s.readers == {} && s.writer == None
  }

  /** `t` began to ask about `d` at state `from`, alone since, over one version of the store. */
  ghost predicate Asking(run: seq<State>, from: nat, t: Tid, d: Digest, log: seq<Version>, pc: Pc) {
    && IsRun(run) && from + 1 < |run| && |log| > 0
    && t !in run[from].threads && t in run[from + 1].threads && run[from + 1].threads[t].call == Decide(d)
    && (forall m :: from <= m < |run| ==> run[m].log == log)
    && Alone(Last(run), t, d, log, pc)
  }

  /** `t` is at `pc`, and no one else holds the gate. */
  ghost predicate Alone(s: State, t: Tid, d: Digest, log: seq<Version>, pc: Pc) {
    && s.log == log && s.cache == map[] && s.writer == None
    && t in s.threads && s.threads[t].call == Decide(d) && s.threads[t].pc == pc
  }

  lemma AskOn(run: seq<State>, from: nat, t: Tid, d: Digest, log: seq<Version>, pc: Pc, step: Step, to: Pc)
    returns (longer: seq<State>)
    requires Asking(run, from, t, d, log, pc) && Enabled(Last(run), step)
    requires Alone(Apply(Last(run), step), t, d, log, to)
    ensures run <= longer && Asking(longer, from, t, d, log, to)
  {
    hide Enabled, Apply, IsRun;
    longer := Then(run, step);
  }

  lemma ReadsFlag(run: seq<State>, from: nat, t: Tid, d: Digest, log: seq<Version>, some: bool)
    returns (longer: seq<State>)
    requires Asking(run, from, t, d, log, Start) && Last(run).flag == Unknown
    requires HasActive(log[|log| - 1].rows) == some
    ensures run <= longer && Asking(longer, from, t, d, log, FlagPublished(some, |log| - 1))
  {
    hide IsRun, HasActive;
    var v := |log| - 1;
    longer := AskOn(run, from, t, d, log, Start, LoadFlag(t), WantFlagGate);
    longer := AskOn(longer, from, t, d, log, WantFlagGate, AcquireRead(t), FlagGate);
    longer := AskOn(longer, from, t, d, log, FlagGate, ReadFlag(t), FlagRead(some, v));
    longer := AskOn(longer, from, t, d, log, FlagRead(some, v), PublishFlag(t), FlagPublished(some, v));
  }

  lemma AskFlag(run: seq<State>, from: nat, t: Tid, d: Digest, log: seq<Version>) returns (longer: seq<State>)
    requires Asking(run, from, t, d, log, Start) && Last(run).flag == Unknown && HasActive(log[|log| - 1].rows)
    ensures run <= longer && Asking(longer, from, t, d, log, Lookup)
  {
    hide IsRun, HasActive;
    longer := ReadsFlag(run, from, t, d, log, true);
    longer := AskOn(longer, from, t, d, log, FlagPublished(true, |log| - 1), ReleaseRead(t), Lookup);
  }

  lemma AskRow(run: seq<State>, from: nat, t: Tid, d: Digest, log: seq<Version>) returns (longer: seq<State>)
    requires Asking(run, from, t, d, log, Lookup) && Answer(log[|log| - 1].rows, d) == Revoked
    ensures run <= longer && IsRun(longer) && Asked(longer, from, |longer| - 1, t, d)
    ensures Last(longer).threads[t].pc.decision == Revoked
    ensures forall m :: from <= m < |longer| ==> longer[m].log == log
  {
    hide IsRun;
    var v := |log| - 1;
    longer := AskOn(run, from, t, d, log, Lookup, LookupCache(t), WantRowGate);
    longer := AskOn(longer, from, t, d, log, WantRowGate, AcquireRead(t), RowGate);
    longer := AskOn(longer, from, t, d, log, RowGate, ReadRow(t), RowRead(Revoked, v));
    longer := AskLast(longer, from, t, d, log, v);
  }

  lemma AskLast(run: seq<State>, from: nat, t: Tid, d: Digest, log: seq<Version>, v: nat) returns (longer: seq<State>)
    requires Asking(run, from, t, d, log, RowRead(Revoked, v))
    ensures run <= longer && IsRun(longer) && Asked(longer, from, |longer| - 1, t, d)
    ensures Last(longer).threads[t].pc.decision == Revoked
    ensures forall m :: from <= m < |longer| ==> longer[m].log == log
  {
    hide IsRun;
    longer := Then(run, PublishRow(t));
    longer := Then(longer, ReleaseRead(t));
  }

  /** From a quiet state, `t` asks about a revoked digest and is told so. */
  lemma AskQuiet(run: seq<State>, t: Tid, d: Digest) returns (longer: seq<State>)
    requires IsRun(run) && Quiet(Last(run)) && t !in Last(run).threads
    requires Answer(Store(Last(run)), d) == Revoked
    ensures IsRun(longer) && run <= longer && Asked(longer, |run| - 1, |longer| - 1, t, d)
    ensures Last(longer).threads[t].pc.decision == Revoked
    ensures forall m :: |run| - 1 <= m < |longer| ==> longer[m].log == Last(run).log
  {
    var log, from := Last(run).log, |run| - 1;
    hide IsRun;
    assert HasActive(Store(Last(run)));
    longer := Then(run, Begin(t, Decide(d)));
    longer := AskFlag(longer, from, t, d, log);
    longer := AskRow(longer, from, t, d, log);
  }

  const EMPTY_STORE := State([Version(map[], Initial, {})], Unknown, map[], {}, None, map[], map[], {})

  /** A state in which `w` is the only thread, having published nothing. */
  function Solo(base: State, w: Tid, call: Call, pc: Pc, held: bool): State
    requires |base.log| > 0
  {
    base.(threads := map[w := Thread(call, pc, Now(base), base.retired)], writer := if held then Some(w) else None)
  }

  /** A state with no threads, in which nothing is held, known or cached. */
  ghost predicate Idle(s: State) {
    Quiet(s) && s.threads == map[]
  }

  lemma SoloMoves(base: State, w: Tid, call: Call, pc: Pc, held: bool, to: Pc)
    requires |base.log| > 0
    ensures Move(Solo(base, w, call, pc, held), w, to) == Solo(base, w, call, to, held)
  {
    var th := Thread(call, pc, Now(base), base.retired);
    assert map[w := th][w := th.(pc := to)] == map[w := th.(pc := to)];
  }

  lemma WriteBegins(run: seq<State>, w: Tid, call: Call) returns (longer: seq<State>)
    requires IsRun(run) && Idle(Last(run)) && !call.Decide? && (call.Retire? ==> call.page in Last(run).pages)
    ensures IsRun(longer) && longer == run + [Solo(Last(run), w, call, WantWrite, false)]
  {
    var base := Last(run);
    hide IsRun;
    var th := Thread(call, WantWrite, Now(base), base.retired);
    assert base.threads[w := th] == map[w := th];
    longer := Then(run, Begin(w, call));
  }

  lemma WriteAcquires(run: seq<State>, base: State, w: Tid, call: Call) returns (longer: seq<State>)
    requires IsRun(run) && Idle(base) && !call.Decide? && Last(run) == Solo(base, w, call, WantWrite, false)
    ensures IsRun(longer) && longer == run + [Solo(base, w, call, WriteGate, true)]
  {
    hide IsRun;
    SoloMoves(base, w, call, WantWrite, false, WriteGate);
    longer := Then(run, AcquireWrite(w));
  }

  /** Where a writer goes once it has reset the flag. */
  ghost predicate Resets(base: State, call: Call, to: Pc) {
    || ((call.Put? || call.Lift?) && to == FlagReset)
    || (call.Retire? && call.page in base.pages && to == Invalidating(base.pages[call.page].digests))
  }

  lemma WriteResets(run: seq<State>, base: State, w: Tid, call: Call, to: Pc) returns (longer: seq<State>)
    requires IsRun(run) && Idle(base) && Resets(base, call, to) && Last(run) == Solo(base, w, call, WriteGate, true)
    ensures IsRun(longer) && longer == run + [Solo(base, w, call, to, true)]
  {
    hide IsRun;
    SoloMoves(base, w, call, WriteGate, true, to);
    longer := Then(run, ResetFlag(w));
  }

  /** A writer takes the gate and resets the flag. */
  lemma WriteOpens(run: seq<State>, w: Tid, call: Call, to: Pc) returns (longer: seq<State>)
    requires IsRun(run) && Idle(Last(run)) && Resets(Last(run), call, to)
    ensures IsRun(longer) && run <= longer && |longer| == |run| + 3
    ensures Last(longer) == Solo(Last(run), w, call, to, true)
  {
    var base := Last(run);
    hide IsRun, Idle, Solo;
    assert |base.log| > 0 by { IdleLog(base); }
    longer := WriteBegins(run, w, call);
    longer := WriteAcquires(longer, base, w, call);
    longer := WriteResets(longer, base, w, call, to);
  }

  lemma IdleLog(s: State)
    requires Idle(s)
    ensures |s.log| > 0
  {
  }

  /** It drops the one digest it wrote and leaves. */
  lemma WriteCloses(run: seq<State>, w: Tid, d: Digest) returns (longer: seq<State>)
    requires IsRun(run) && var s := Last(run);
      && |s.log| > 0 && s.flag == Unknown && s.cache == map[] && s.readers == {} && s.writer == Some(w)
      && s.threads.Keys == {w} && s.threads[w].pc == Invalidating({d})
      && (s.threads[w].call.Retire? ==> s.threads[w].call.page in s.pages)
    ensures IsRun(longer) && run <= longer && |longer| == |run| + 2 && Quiet(Last(longer))
    ensures forall m :: |run| <= m < |longer| ==> longer[m].log == Last(run).log
    ensures Last(longer).threads.Keys == {w} && Last(longer).pages == Last(run).pages
    ensures Last(run).threads[w].call.Retire? ==> Last(run).threads[w].call.page in Last(longer).retired
  {
    hide IsRun;
    longer := Then(run, Invalidate(w, d));
    assert Last(longer).threads[w].pc == Invalidating({});
    longer := Then(longer, ReleaseWrite(w));
  }

  lemma StartsRun()
    ensures IsRun([EMPTY_STORE]) && Idle(EMPTY_STORE)
  {
  }

  lemma UnsettlesWrites(s: State, step: Step, d: Digest)
    requires Enabled(s, step)
    ensures Unsettles(step, s, d) ==> |Apply(s, step).log| == |s.log| + 1
  {
  }

  /** Only commits write versions. */
  lemma SameLogSpares(s: State, s': State, d: Digest)
    requires s'.log == s.log
    ensures Spares(s, s', d)
  {
    hide Unsettles, Enabled, Apply;
    forall step | Enabled(s, step) && s' == Apply(s, step) ensures !Unsettles(step, s, d) {
      UnsettlesWrites(s, step, d);
    }
  }

  /** `put` alone, from the empty store: its commit is the step out of state 3. */
  lemma PutAlone(w: Tid, d: Digest) returns (run: seq<State>)
    ensures IsRun(run) && |run| == 7 && Quiet(run[6]) && run[6].threads.Keys == {w} && run[6].pages == map[]
    ensures Writing(run[3], w) && run[3].threads[w].call == Put(d) && run[4] == DoCommit(run[3], w)
    ensures run[5].log == run[4].log && run[6].log == run[4].log && Answer(Store(run[6]), d) == Revoked
  {
    hide IsRun;
    StartsRun();
    run := WriteOpens([EMPTY_STORE], w, Put(d), FlagReset);
    run := Then(run, Commit(w));
    assert run[4].threads[w].pc == Invalidating({d}) && run[4].threads.Keys == {w};
    run := WriteCloses(run, w, d);
  }

  /** A run in which `put` revokes `d` and a later decision sees it: it meets every hypothesis of `PutIsSeen`. */
  lemma PutIsSeenApplies(w: Tid, t: Tid, d: Digest) returns (run: seq<State>, a: nat, i: nat, j: nat)
    requires w != t
    ensures IsRun(run) && a < i && Asked(run, i, j, t, d)
    ensures Writing(run[a], w) && run[a].threads[w].call == Put(d) && run[a + 1] == DoCommit(run[a], w)
    ensures forall m :: a < m < j ==> SparesAt(run, m, d)
    ensures forall p :: !AwaitsRetirement(run[i], p)
    ensures run[j].threads[t].pc.decision == Revoked
  {
    hide IsRun, Quiet;
    var first := PutAlone(w, d);
    run := AskQuiet(first, t, d);
    a, i, j := 3, 6, |run| - 1;
    assert forall m :: 0 <= m < 7 ==> run[m] == first[m];
    forall m | a < m < j ensures SparesAt(run, m, d) {
      assert run[m].log == run[m + 1].log;
      SameLogSpares(run[m], run[m + 1], d);
    }
  }

  /** A replica commit of `d`, retired before the decision that sees it: the hypotheses of `RetiredPageIsSeen`. */
  lemma RetiredPageApplies(w: Tid, t: Tid, d: Digest, p: PageId) returns (run: seq<State>, i: nat, j: nat)
    requires w != t
    ensures IsRun(run) && 0 < i && Asked(run, i, j, t, d)
    ensures run[1] == DoReplicaCommit(run[0], p, map[d := Active], {d}, false) && p in run[i].retired
    ensures run[j].threads[t].pc.decision == Revoked
  {
    hide IsRun;
    StartsRun();
    var first := Then([EMPTY_STORE], ReplicaCommit(p, map[d := Active], {d}, false));
    first := WriteOpens(first, w, Retire(p), Invalidating({d}));
    first := WriteCloses(first, w, d);
    run := AskQuiet(first, t, d);
    i, j := |first| - 1, |run| - 1;
  }

  lemma AskClear(run: seq<State>, t: Tid, d: Digest) returns (longer: seq<State>)
    requires IsRun(run) && Quiet(Last(run)) && t !in Last(run).threads && !HasActive(Store(Last(run)))
    ensures IsRun(longer) && run <= longer && Asked(longer, |run| - 1, |longer| - 1, t, d)
    ensures forall m :: |run| - 1 <= m < |longer| ==> longer[m].log == Last(run).log
  {
    var log, from := Last(run).log, |run| - 1;
    hide IsRun, HasActive;
    longer := Then(run, Begin(t, Decide(d)));
    longer := ReadsFlag(longer, from, t, d, log, false);
    longer := Then(longer, ReleaseRead(t));
  }

  lemma RevivesWrites(s: State, step: Step, d: Digest)
    requires Enabled(s, step)
    ensures Revives(step, s, d) ==> |Apply(s, step).log| == |s.log| + 1
  {
  }

  /** A run in which `lift` clears a revoked digest and a later decision sees it: the hypotheses of `LiftIsSeen`. */
  lemma LiftIsSeenApplies(w: Tid, t: Tid, d: Digest) returns (run: seq<State>, a: nat, i: nat, j: nat)
    requires w != t
    ensures IsRun(run) && a < i && Asked(run, i, j, t, d)
    ensures Writing(run[a], w) && run[a].threads[w].call == Lift(d) && run[a + 1] == DoCommit(run[a], w)
    ensures Answer(Store(run[a]), d) == Revoked
    ensures forall m :: a < m < j ==> LeavesAt(run, m, d)
  {
    var start := EMPTY_STORE.(log := [Version(map[d := Active], Initial, {})]);
    assert IsRun([start]) && Idle(start);
    hide IsRun;
    var first := WriteOpens([start], w, Lift(d), FlagReset);
    first := Then(first, Commit(w));
    assert first[4].threads[w].pc == Invalidating({d}) && first[4].threads.Keys == {w};
    assert first[4].log[1].rows == map[d := Lifted];
    first := WriteCloses(first, w, d);
    run := AskClear(first, t, d);
    a, i, j := 3, 6, |run| - 1;
    forall m | a < m < j ensures LeavesAt(run, m, d) {
      assert run[m].log == run[m + 1].log;
      forall step | Enabled(run[m], step) && run[m + 1] == Apply(run[m], step) ensures !Revives(step, run[m], d) {
        RevivesWrites(run[m], step, d);
      }
    }
  }
}
