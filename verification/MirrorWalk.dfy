/**
  The manifest-graph walk of a mirror run: a level-by-level search with deduplication by digest and two
  bounds, over a graph an upstream may make cyclic or endless.

  Each digest is fetched at most once in a run, so what a run sees is a function from digests to
  outcomes; `fetch` is any such function.
*/
module MirrorWalk {
  import opened Common

  const MAX_GRAPH_NODES: nat := 1024
  const MAX_GRAPH_DEPTH: nat := 32

  type Digest = string

  /** A row of the run's report: the outcome of a manifest or of a blob, or the bound a child broke. */
  datatype Row = Manifest(text: string) | Blob(text: string) | TooDeep(child: Digest) | TooMany(child: Digest)

  /**
    What pulling one manifest and its blobs yields: the rows it reports and the children it names, the rows
    of a reported failure, or a store fault.
  */
  datatype Fetch = Accepted(rows: seq<Row>, children: seq<Digest>) | Rejected(rows: seq<Row>) | Fault

  datatype Outcome = Completed | Bounded | Faulted

  type Graph = Digest -> Fetch

  // ---------------------------------------------------------------------------------------------
  // Reachability through accepted manifests
  // ---------------------------------------------------------------------------------------------

  predicate Names(fetch: Graph, parent: Digest, child: Digest) {
    fetch(parent).Accepted? && child in fetch(parent).children
  }

  /** A chain of `n` descriptors leads from the root manifest to `d`, every manifest before `d` accepted. */
  ghost predicate Reach(fetch: Graph, roots: seq<Digest>, d: Digest, n: nat)
    decreases n
  {
    n > 0 && if n == 1 then d in roots else exists p :: Reach(fetch, roots, p, n - 1) && Names(fetch, p, d)
  }

  ghost predicate Within(fetch: Graph, roots: seq<Digest>, d: Digest, n: nat) {
    exists m :: 0 <= m <= n && Reach(fetch, roots, d, m)
  }

  ghost predicate Shortest(fetch: Graph, roots: seq<Digest>, d: Digest, n: nat) {
    Reach(fetch, roots, d, n) && forall m :: 0 <= m < n ==> !Reach(fetch, roots, d, m)
  }

  /** Some digest is `n` steps away and no closer. */
  ghost predicate Reaches(fetch: Graph, roots: seq<Digest>, n: nat) {
    exists d :: Shortest(fetch, roots, d, n)
  }

  lemma ShortestReaches(fetch: Graph, roots: seq<Digest>, d: Digest, n: nat)
    requires Shortest(fetch, roots, d, n)
    ensures Reaches(fetch, roots, n)
  {
  }

  lemma WithinNext(fetch: Graph, roots: seq<Digest>, d: Digest, n: nat)
    requires n > 0
    ensures Within(fetch, roots, d, n + 1) <==>
      || Within(fetch, roots, d, n)
      || exists p :: Shortest(fetch, roots, p, n) && Names(fetch, p, d)
  {
    if Reach(fetch, roots, d, n + 1) {
      var p :| Reach(fetch, roots, p, n) && Names(fetch, p, d);
      if !Shortest(fetch, roots, p, n) {
        var m :| 0 <= m < n && Reach(fetch, roots, p, m);
        assert Reach(fetch, roots, d, m + 1);
      }
    }
    if p :| Shortest(fetch, roots, p, n) && Names(fetch, p, d) {
      assert Reach(fetch, roots, d, n + 1);
    }
  }

  lemma ShortestIff(fetch: Graph, roots: seq<Digest>, d: Digest, n: nat)
    requires n > 0
    ensures Shortest(fetch, roots, d, n) <==> Within(fetch, roots, d, n) && !Within(fetch, roots, d, n - 1)
  {
  }

  /** Once a level is empty nothing lies beyond it. */
  lemma {:induction false} NothingBeyond(fetch: Graph, roots: seq<Digest>, level: nat, d: Digest, n: nat)
    requires level > 0 && forall p :: !Shortest(fetch, roots, p, level)
    ensures Reach(fetch, roots, d, n) ==> Within(fetch, roots, d, level)
    decreases n
  {
    if n > level && Reach(fetch, roots, d, n) {
      var p :| Reach(fetch, roots, p, n - 1) && Names(fetch, p, d);
      NothingBeyond(fetch, roots, level, p, n - 1);
      ShortestIff(fetch, roots, p, level);
      var m :| 0 <= m <= level - 1 && Reach(fetch, roots, p, m);
      assert Reach(fetch, roots, d, m + 1);
    }
  }

  // ---------------------------------------------------------------------------------------------
  // The walk
  // ---------------------------------------------------------------------------------------------

  /** The digests of a pending list. */
  function Digests(pending: seq<(Digest, nat)>): set<Digest> {
    set i | 0 <= i < |pending| :: pending[i].0
  }

  lemma NoDigests()
    ensures Digests([]) == {}
  {
  }

  lemma DigestsAppend(pending: seq<(Digest, nat)>, d: Digest, n: nat)
    ensures Digests(pending + [(d, n)]) == Digests(pending) + {d}
  {
    var longer := pending + [(d, n)];
    forall e ensures e in Digests(longer) <==> e in Digests(pending) || e == d {
      if e in Digests(pending) {
        var i :| 0 <= i < |pending| && pending[i].0 == e;
        assert longer[i].0 == e;
      }
      assert longer[|pending|].0 == d;
    }
  }

  /** Everything scheduled so far, in order, no digest twice, within both bounds. */
  ghost predicate Scheduled(scheduled: seq<(Digest, nat)>) {
    && (forall i, j :: 0 <= i < j < |scheduled| ==> scheduled[i].0 != scheduled[j].0)
    && |scheduled| <= MAX_GRAPH_NODES
    && forall i :: 0 <= i < |scheduled| ==> 1 <= scheduled[i].1 <= MAX_GRAPH_DEPTH
  }

  lemma ScheduledSize(scheduled: seq<(Digest, nat)>)
    requires Scheduled(scheduled)
    ensures |scheduled| <= 1024
  {
  }

  lemma ScheduledAppend(scheduled: seq<(Digest, nat)>, d: Digest, n: nat)
    requires Scheduled(scheduled) && d !in Digests(scheduled)
    requires |scheduled| < MAX_GRAPH_NODES && 1 <= n <= MAX_GRAPH_DEPTH
    ensures Scheduled(scheduled + [(d, n)])
  {
    assert forall i :: 0 <= i < |scheduled| ==> scheduled[i].0 in Digests(scheduled);
  }

  /** The digests of a list, each where it first appears. */
  function Firsts(named: seq<Digest>): seq<Digest> {
    if named == [] then [] else
      var rest, last := Firsts(named[..|named| - 1]), named[|named| - 1];
      if last in named[..|named| - 1] then rest else rest + [last]
  }

  function Order(scheduled: seq<(Digest, nat)>): seq<Digest> {
    seq(|scheduled|, i requires 0 <= i < |scheduled| => scheduled[i].0)
  }

  /** What is scheduled is what was named, in the order it was first named. */
  ghost predicate InOrder(scheduled: seq<(Digest, nat)>, named: seq<Digest>) {
    Order(scheduled) == Firsts(named)
  }

  lemma {:induction false} FirstsHold(named: seq<Digest>, d: Digest)
    ensures d in Firsts(named) <==> d in named
    decreases |named|
  {
    if named != [] {
      FirstsHold(named[..|named| - 1], d);
      assert named == named[..|named| - 1] + [named[|named| - 1]];
    }
  }

  /** A digest new at its place in the list follows exactly those first named before it. */
  lemma {:induction false} FirstsAt(named: seq<Digest>, i: nat)
    requires i < |named| && named[i] !in named[..i]
    ensures Firsts(named[..i]) + [named[i]] <= Firsts(named)
    decreases |named|
  {
    var front := named[..|named| - 1];
    if i < |front| {
      assert front[..i] == named[..i];
      FirstsAt(front, i);
    }
  }

  lemma ScheduledNamed(scheduled: seq<(Digest, nat)>, named: seq<Digest>, d: Digest)
    requires InOrder(scheduled, named)
    ensures d in Digests(scheduled) <==> d in named
  {
    FirstsHold(named, d);
    if d in Digests(scheduled) {
      var i :| 0 <= i < |scheduled| && scheduled[i].0 == d;
      assert Order(scheduled)[i] == d;
    }
    if d in Order(scheduled) {
      var i :| 0 <= i < |scheduled| && Order(scheduled)[i] == d;
      assert scheduled[i].0 == d;
    }
  }

  lemma NamedAgain(scheduled: seq<(Digest, nat)>, named: seq<Digest>, d: Digest)
    requires InOrder(scheduled, named) && d in Digests(scheduled)
    ensures InOrder(scheduled, named + [d])
  {
    ScheduledNamed(scheduled, named, d);
    assert (named + [d])[..|named|] == named;
  }

  lemma NamedFirst(scheduled: seq<(Digest, nat)>, named: seq<Digest>, d: Digest, n: nat)
    requires InOrder(scheduled, named) && d !in Digests(scheduled)
    ensures InOrder(scheduled + [(d, n)], named + [d])
  {
    ScheduledNamed(scheduled, named, d);
    assert (named + [d])[..|named|] == named;
    assert Order(scheduled + [(d, n)]) == Order(scheduled) + [d];
  }

  /**
    Of `children`, named at `depth`, child `k` is new and breaks a bound: it is deeper than 32, or 1024 digests
    are scheduled already.  `row` names it and the bound.
  */
  ghost predicate Breaks(scheduled: seq<(Digest, nat)>, children: seq<Digest>, depth: nat, k: nat, row: Row) {
    && k < |children| && children[k] !in Digests(scheduled)
    && (depth > 32 || |scheduled| == 1024)
    && row == if depth > 32 then TooDeep(children[k]) else TooMany(children[k])
  }

  lemma BreaksHere(scheduled: seq<(Digest, nat)>, children: seq<Digest>, depth: nat, k: nat)
    requires k < |children| && children[k] !in Digests(scheduled) && (depth > 32 || |scheduled| == 1024)
    ensures Breaks(scheduled, children, depth, k, if depth > 32 then TooDeep(children[k]) else TooMany(children[k]))
  {
  }

  class Walk {
    var visited: set<Digest>
    var pending: seq<(Digest, nat)>
    var rows: seq<Row>
    /** Every `(digest, depth)` ever enqueued. */
    ghost var scheduled: seq<(Digest, nat)>
    /** Every digest offered for scheduling, repeats included, up to the one that broke a bound. */
    ghost var named: seq<Digest>

    ghost predicate Valid()
      reads this
    {
      && Scheduled(scheduled) && InOrder(scheduled, named)
      && visited == Digests(scheduled)
      && |visited| == |scheduled|
    }

    constructor ()
      ensures Valid() && visited == {} && pending == [] && rows == [] && scheduled == [] && named == []
    {
      visited, pending, rows, scheduled, named := {}, [], [], [], [];
    }

    /** Enqueue one child if it is new, or report the bound it breaks. */
    method ScheduleChild(child: Digest, depth: nat) returns (stop: bool)
      requires Valid() && depth >= 1
      modifies this
      ensures visited == old(visited) + {child}
      ensures stop ==>
        && child !in Digests(old(scheduled)) && child !in old(visited)
        && scheduled == old(scheduled) && pending == old(pending) && named == old(named)
        && rows == old(rows) + [if depth > 32 then TooDeep(child) else TooMany(child)]
        && (depth > 32 || |scheduled| == 1024) && (depth > MAX_GRAPH_DEPTH || |visited| > MAX_GRAPH_NODES)
      ensures !stop ==>
        && Valid() && rows == old(rows) && named == old(named) + [child]
        && var entry := if child in old(visited) then [] else [(child, depth)];
           scheduled == old(scheduled) + entry && pending == old(pending) + entry
    {
      hide Digests, Scheduled, InOrder;
      if child in visited {
        NamedAgain(scheduled, named, child);
        named := named + [child];
        return false;
      }
      visited := visited + {child};
      if depth > MAX_GRAPH_DEPTH {
        rows := rows + [TooDeep(child)];
        return true;
      }
      if |visited| > MAX_GRAPH_NODES {
        ScheduledSize(scheduled);
        rows := rows + [TooMany(child)];
        return true;
      }
      DigestsAppend(scheduled, child, depth);
      ScheduledAppend(scheduled, child, depth);
      NamedFirst(scheduled, named, child, depth);
      scheduled := scheduled + [(child, depth)];
      pending := pending + [(child, depth)];
      named := named + [child];
      stop := false;
    }

    /**
      Enqueue the children not yet visited, stopping with an error row at the first that breaks a bound: `k` of
      the children were handled before it.
    */
    method ScheduleChildren(children: seq<Digest>, depth: nat)
      returns (stop: bool, ghost added: seq<(Digest, nat)>, ghost k: nat)
      requires Valid() && depth >= 1
      modifies this
      ensures scheduled == old(scheduled) + added && pending == old(pending) + added
      ensures forall i :: 0 <= i < |added| ==> added[i].1 == depth
      ensures Scheduled(scheduled) && Digests(scheduled) <= visited
      ensures Digests(added) <= visited - old(visited)
      ensures old(visited) <= visited && forall d :: d in visited ==> d in old(visited) || d in children
      ensures k <= |children| && named == old(named) + children[..k] && InOrder(scheduled, named)
      ensures !stop ==>
        && k == |children| && Valid() && rows == old(rows)
        && (forall d :: d in children ==> d in visited)
        && Digests(added) == visited - old(visited)
      ensures stop ==> |rows| > 0 && rows == old(rows) + [rows[|rows| - 1]]
      ensures stop ==> k < |children| && Breaks(scheduled, children, depth, k, rows[|rows| - 1])
      ensures stop ==> children[k] in visited - old(visited) && (depth > MAX_GRAPH_DEPTH || |visited| > MAX_GRAPH_NODES)
    {
      added := [];
      hide Digests, Scheduled, InOrder, Breaks;
      NoDigests();
      for i := 0 to |children|
        invariant Valid() && rows == old(rows)
        invariant scheduled == old(scheduled) + added && pending == old(pending) + added
        invariant named == old(named) + children[..i]
        invariant forall d :: d in visited <==> d in old(visited) || d in children[..i]
        invariant Digests(added) == visited - old(visited)
        invariant forall j :: 0 <= j < |added| ==> added[j].1 == depth
      {
        assert children[..i + 1] == children[..i] + [children[i]];
        ghost var seen := visited;
        stop := ScheduleChild(children[i], depth);
        if stop {
          BreaksHere(scheduled, children, depth, i);
          return true, added, i;
        }
        if children[i] !in seen {
          DigestsAppend(added, children[i], depth);
          added := added + [(children[i], depth)];
        }
      }
      assert children[..|children|] == children;
      stop, k := false, |children|;
    }

    /** Report one fetched manifest of the level and schedule what it names. */
    method ScheduleNode(fetch: Graph, current: seq<(Digest, nat)>, i: nat, level: nat,
                        ghost roots: seq<Digest>, ghost before: set<Digest>)
      returns (stop: bool, ghost k: nat)
      requires Valid() && 1 <= level && i < |current| && current[i].1 == level
      requires AllShortest(fetch, roots, scheduled)
      requires forall d :: d in before <==> Within(fetch, roots, d, level)
      requires forall d :: d in Digests(current) <==> Shortest(fetch, roots, d, level)
      requires before <= visited && Digests(pending) == visited - before
      requires forall d :: d in visited <==> d in before || ChildOf(fetch, current[..i], d)
      requires forall j :: 0 <= j < |pending| ==> pending[j].1 == level + 1
      modifies this
      ensures Scheduled(scheduled) && AllShortest(fetch, roots, scheduled)
      ensures old(scheduled) <= scheduled && pending == old(pending) + scheduled[|old(scheduled)|..]
      ensures before <= visited && forall d :: d in visited ==> Within(fetch, roots, d, level + 1)
      ensures k <= |Children(fetch, current[i].0)| && InOrder(scheduled, named)
      ensures named == old(named) + Children(fetch, current[i].0)[..k]
      ensures stop ==>
        && |rows| > 0 && rows == old(rows) + Report(fetch, current[i].0) + [rows[|rows| - 1]]
        && Breaks(scheduled, Children(fetch, current[i].0), level + 1, k, rows[|rows| - 1])
        && (|visited| > MAX_GRAPH_NODES || (level + 1 > MAX_GRAPH_DEPTH && Reaches(fetch, roots, level + 1)))
      ensures !stop ==>
        && Valid() && Digests(pending) == visited - before && named == old(named) + Children(fetch, current[i].0)
        && rows == old(rows) + Report(fetch, current[i].0)
        && (forall d :: d in visited <==> d in before || ChildOf(fetch, current[..i + 1], d))
        && (forall j :: 0 <= j < |pending| ==> pending[j].1 == level + 1)
    {
      hide Digests, Scheduled, InOrder, Breaks, Reach, Within, Shortest, AllShortest, Reaches, ChildOf;
      var step := fetch(current[i].0);
      rows := rows + if step.Fault? then [] else step.rows;
      ghost var added: seq<(Digest, nat)>;
      stop, added, k := ScheduleChildren(if step.Accepted? then step.children else [], current[i].1 + 1);
      ChildrenAppend(fetch, current, i);
      ChildOfPrefix(fetch, current, i + 1);
      NewAreShortest(fetch, roots, current, level, before, visited);
      assert forall d :: d in Digests(added) ==> d in visited - before;
      AllShortestAppend(fetch, roots, old(scheduled), added, level + 1);
      if stop {
        ghost var child := Children(fetch, current[i].0)[k];
        assert child in visited - before;
        ShortestReaches(fetch, roots, child, level + 1);
        return;
      }
      DigestsConcat(old(pending), added);
    }

    /**
      Schedule the children of one fetched level, after those of `reported`.  `before` is what was visited when
      the level began: everything within `level` steps.  A stop comes after `n` manifests, at child `k` of the
      last of them.
    */
    method ScheduleLevel(fetch: Graph, current: seq<(Digest, nat)>, level: nat, ghost roots: seq<Digest>,
                         ghost base: seq<Row>, ghost reported: seq<(Digest, nat)>)
      returns (stop: bool, ghost n: nat, ghost k: nat)
      requires Valid() && pending == [] && 1 <= level && NoFault(fetch, current)
      requires AllShortest(fetch, roots, scheduled)
      requires scheduled == reported + current && Handled(fetch, roots, base, reported, named, rows)
      requires forall i :: 0 <= i < |current| ==> current[i].1 == level
      requires forall d :: d in visited <==> Within(fetch, roots, d, level)
      requires forall d :: d in Digests(current) <==> Shortest(fetch, roots, d, level)
      modifies this
      ensures Scheduled(scheduled) && AllShortest(fetch, roots, scheduled)
      ensures old(scheduled) <= scheduled
      ensures forall d :: d in visited ==> Within(fetch, roots, d, level + 1)
      ensures stop ==>
        && Stopped(fetch, roots, base, scheduled, n, k, rows)
        && (|visited| > MAX_GRAPH_NODES || (level + 1 > MAX_GRAPH_DEPTH && Reaches(fetch, roots, level + 1)))
      ensures !stop ==>
        && Valid() && Handled(fetch, roots, base, reported + current, named, rows)
        && scheduled == old(scheduled) + pending
        && (forall i :: 0 <= i < |pending| ==> pending[i].1 == level + 1)
        && (forall d :: d in visited <==> Within(fetch, roots, d, level + 1))
        && (forall d :: d in Digests(pending) <==> Shortest(fetch, roots, d, level + 1))
    {
      hide Digests, Scheduled, InOrder, Breaks, Reach, Within, Shortest, AllShortest, Reaches, ChildOf;
      hide Stopped, Handled, NoFault, Report, Children;
      ghost var before := visited;
      NoDigests();
      NoChildren(fetch);
      assert current[..0] == [] && reported + [] == reported;
      for i := 0 to |current|
        invariant Valid() && AllShortest(fetch, roots, scheduled)
        invariant Handled(fetch, roots, base, reported + current[..i], named, rows)
        invariant scheduled == old(scheduled) + pending && before <= visited
        invariant forall j :: 0 <= j < |pending| ==> pending[j].1 == level + 1
        invariant Digests(pending) == visited - before
        invariant forall d :: d in visited <==> d in before || ChildOf(fetch, current[..i], d)
      {
        ghost var was, rowsWere := named, rows;
        stop, k := ScheduleNode(fetch, current, i, level, roots, before);
        if stop {
          n := |reported| + i + 1;
          StopsHere(fetch, roots, base, reported, current, i, scheduled, was, rowsWere, k, rows);
          return;
        }
        HandledNext(fetch, roots, base, reported, current, i, was, rowsWere);
      }
      assert current[..|current|] == current;
      LevelDone(fetch, roots, current, level, before, visited);
      stop, n, k := false, 0, 0;
    }

    /**
      Walk the graph below a root manifest that names `roots` and whose own blobs leave the rows `blobs`, with
      or without a store fault.  Whatever the graph, every digest is
      scheduled at most once, at its shortest distance and within both bounds, in the order it is first named:
      by the root manifest, then by each scheduled manifest in turn.  Without a store fault the
      walk completes exactly when everything reachable fits the bounds, and then it scheduled exactly
      what is reachable.  However it ends, `n` manifests were handled, and the report holds the root's blobs and
      then the rows of each of them in order, with the row of the child that broke a bound last.
    */
    method WalkManifest(fetch: Graph, blobs: seq<Row>, fault: bool, roots: seq<Digest>)
      returns (outcome: Outcome, ghost n: nat, ghost k: nat)
      requires Valid() && visited == {} && pending == [] && scheduled == [] && named == []
      modifies this
      ensures Scheduled(scheduled) && AllShortest(fetch, roots, scheduled)
      ensures outcome == Completed ==>
        && FitsBounds(fetch, roots)
        && (forall d :: d in Digests(scheduled) <==> Reachable(fetch, roots, d))
        && !fault && rows == old(rows) + blobs + Reports(fetch, scheduled)
        && Order(scheduled) == Firsts(Named(fetch, roots, scheduled))
        && NoFault(fetch, scheduled)
      ensures outcome == Bounded ==>
        && !fault && !FitsBounds(fetch, roots) && |rows| > 0
        && StoppedAt(fetch, roots, scheduled, n, k, rows[|rows| - 1])
        && rows == old(rows) + blobs + Reports(fetch, scheduled[..n]) + [rows[|rows| - 1]]
      ensures outcome == Faulted && !fault ==>
        && n <= |scheduled| && NoFault(fetch, scheduled[..n]) && !NoFault(fetch, scheduled[n..])
        && rows == old(rows) + blobs + Reports(fetch, scheduled[..n])
        && Order(scheduled) == Firsts(Named(fetch, roots, scheduled[..n]))
      ensures fault ==> outcome == Faulted && scheduled == [] && rows == old(rows) + blobs
    {
      NothingScheduled(fetch, roots);
      rows := rows + blobs;
      if fault { return Faulted, 0, 0; }
      outcome, n, k := WalkChildren(fetch, roots);
    }

    /** Schedule what the root manifest names. */
    method ScheduleRoots(fetch: Graph, roots: seq<Digest>) returns (stop: bool, ghost k: nat)
      requires Valid() && visited == {} && pending == [] && scheduled == [] && named == []
      modifies this
      ensures Scheduled(scheduled) && AllShortest(fetch, roots, scheduled)
      ensures stop ==> !FitsBounds(fetch, roots) && Stopped(fetch, roots, old(rows), scheduled, 0, k, rows)
      ensures !stop ==>
        && Valid() && scheduled == pending && Handled(fetch, roots, old(rows), [], named, rows)
        && (forall i :: 0 <= i < |pending| ==> pending[i].1 == 1)
        && (forall d :: d in visited <==> Within(fetch, roots, d, 1))
        && (forall d :: d in Digests(pending) <==> Shortest(fetch, roots, d, 1))
    {
      hide Digests, Scheduled, Reach, Within, Shortest, AllShortest, FitsBounds;
      hide InOrder, Breaks, Stopped, Handled;
      ghost var added;
      stop, added, k := ScheduleChildren(roots, 1);
      FirstLevel(fetch, roots, visited, added);
      assert scheduled == added && named == roots[..k];
      if stop {
        TooManyVisited(fetch, roots, visited, 1);
        StopsAtRoot(fetch, roots, old(rows), scheduled, k, rows);
        return;
      }
      assert roots[..|roots|] == roots;
      HandledNone(fetch, roots, rows);
    }

    /** The walk proper, level by level. */
    method WalkChildren(fetch: Graph, roots: seq<Digest>) returns (outcome: Outcome, ghost n: nat, ghost k: nat)
      requires Valid() && visited == {} && pending == [] && scheduled == [] && named == []
      modifies this
      ensures Scheduled(scheduled) && AllShortest(fetch, roots, scheduled)
      ensures outcome == Completed ==>
        && FitsBounds(fetch, roots)
        && (forall d :: d in Digests(scheduled) <==> Reachable(fetch, roots, d))
        && Handled(fetch, roots, old(rows), scheduled, named, rows) && InOrder(scheduled, named)
      ensures outcome == Bounded ==> !FitsBounds(fetch, roots) && Stopped(fetch, roots, old(rows), scheduled, n, k, rows)
      ensures outcome == Faulted ==>
        && n <= |scheduled| && !NoFault(fetch, scheduled[n..])
        && Handled(fetch, roots, old(rows), scheduled[..n], named, rows) && InOrder(scheduled, named)
    {
      hide Digests, Scheduled, Reach, Within, Shortest, AllShortest, Reaches, FitsBounds, Reachable;
      hide InOrder, Breaks, Stopped, Handled, NoFault;
      n := 0;
      var stop;
      stop, k := ScheduleRoots(fetch, roots);
      if stop { return Bounded, 0, k; }
      var level := 1;
      ghost var reported: seq<(Digest, nat)> := [];
      while pending != []
        invariant 1 <= level && Valid() && AllShortest(fetch, roots, scheduled)
        invariant scheduled == reported + pending
        invariant Handled(fetch, roots, old(rows), reported, named, rows)
        invariant forall i :: 0 <= i < |pending| ==> pending[i].1 == level
        invariant forall d :: d in visited <==> Within(fetch, roots, d, level)
        invariant forall d :: d in Digests(pending) <==> Shortest(fetch, roots, d, level)
        decreases MAX_GRAPH_DEPTH + 1 - level
      {
        LevelInBounds(scheduled, |reported|);
        var current := pending;
        pending := [];
        var faulted := FetchLevel(fetch, current);
        if faulted {
          assert scheduled[..|reported|] == reported && scheduled[|reported|..] == current;
          return Faulted, |reported|, 0;
        }
        stop, n, k := ScheduleLevel(fetch, current, level, roots, old(rows), reported);
        if stop {
          if |visited| > MAX_GRAPH_NODES {
            TooManyVisited(fetch, roots, visited, level + 1);
          } else {
            TooDeepReached(fetch, roots, level + 1);
          }
          return Bounded, n, k;
        }
        reported := reported + current;
        level := level + 1;
      }
      assert scheduled == reported;
      NoDigests();
      WalkedAll(fetch, roots, visited, level, scheduled);
      outcome := Completed;
    }
  }

  /** The digests a fetched manifest names. */
  function Children(fetch: Graph, d: Digest): seq<Digest> {
    if fetch(d).Accepted? then fetch(d).children else []
  }

  /** Everything named by the root manifest and then by each manifest of the list, repeats included. */
  function Named(fetch: Graph, roots: seq<Digest>, handled: seq<(Digest, nat)>): seq<Digest> {
    if handled == [] then roots
    else Named(fetch, roots, handled[..|handled| - 1]) + Children(fetch, handled[|handled| - 1].0)
  }

  predicate NoFault(fetch: Graph, level: seq<(Digest, nat)>) {
    forall i :: 0 <= i < |level| ==> fetch(level[i].0) != Fault
  }

  /** The manifests in `handled` were fetched without a fault and reported, and what they name was offered. */
  ghost predicate Handled(fetch: Graph, roots: seq<Digest>, base: seq<Row>, handled: seq<(Digest, nat)>,
                          named: seq<Digest>, rows: seq<Row>) {
    && NoFault(fetch, handled)
    && named == Named(fetch, roots, handled)
    && rows == base + Reports(fetch, handled)
  }

  /**
    After `n` of the scheduled manifests the walk stopped at child `k` of the last of them, or of the root
    manifest: everything named before it is scheduled, in order, and `row` says which bound it breaks.
  */
  ghost predicate StoppedAt(fetch: Graph, roots: seq<Digest>, scheduled: seq<(Digest, nat)>, n: nat, k: nat, row: Row) {
    && n <= |scheduled|
    && var children := if n == 0 then roots else Children(fetch, scheduled[n - 1].0);
       && Breaks(scheduled, children, if n == 0 then 1 else scheduled[n - 1].1 + 1, k, row)
       && Order(scheduled) == Firsts((if n == 0 then [] else Named(fetch, roots, scheduled[..n - 1])) + children[..k])
  }

  ghost predicate Stopped(fetch: Graph, roots: seq<Digest>, base: seq<Row>, scheduled: seq<(Digest, nat)>,
                          n: nat, k: nat, rows: seq<Row>) {
    && |rows| > 0 && StoppedAt(fetch, roots, scheduled, n, k, rows[|rows| - 1])
    && rows == base + Reports(fetch, scheduled[..n]) + [rows[|rows| - 1]]
  }

  lemma HandledNone(fetch: Graph, roots: seq<Digest>, rows: seq<Row>)
    ensures Handled(fetch, roots, rows, [], roots, rows)
  {
  }

  lemma HandledNext(fetch: Graph, roots: seq<Digest>, base: seq<Row>, reported: seq<(Digest, nat)>,
                    current: seq<(Digest, nat)>, i: nat, named: seq<Digest>, rows: seq<Row>)
    requires i < |current| && NoFault(fetch, current)
    requires Handled(fetch, roots, base, reported + current[..i], named, rows)
    ensures Handled(fetch, roots, base, reported + current[..i + 1], named + Children(fetch, current[i].0),
                    rows + Report(fetch, current[i].0))
  {
    var before, after := reported + current[..i], reported + current[..i + 1];
    assert after == before + [current[i]] && after[..|after| - 1] == before;
    assert base + Reports(fetch, before) + Report(fetch, current[i].0)
        == base + (Reports(fetch, before) + Report(fetch, current[i].0));
  }

  lemma StopsAtRoot(fetch: Graph, roots: seq<Digest>, base: seq<Row>, scheduled: seq<(Digest, nat)>, k: nat, rows: seq<Row>)
    requires k <= |roots| && InOrder(scheduled, roots[..k])
    requires |rows| > 0 && rows == base + [rows[|rows| - 1]]
    requires Breaks(scheduled, roots, 1, k, rows[|rows| - 1])
    ensures Stopped(fetch, roots, base, scheduled, 0, k, rows)
  {
    assert [] + roots[..k] == roots[..k];
    assert base + [] == base;
  }

  lemma StopsHere(fetch: Graph, roots: seq<Digest>, base: seq<Row>, reported: seq<(Digest, nat)>,
                  current: seq<(Digest, nat)>, i: nat, scheduled: seq<(Digest, nat)>,
                  named: seq<Digest>, before: seq<Row>, k: nat, rows: seq<Row>)
    requires i < |current| && reported + current <= scheduled
    requires Handled(fetch, roots, base, reported + current[..i], named, before)
    requires var children := Children(fetch, current[i].0);
      && k <= |children| && InOrder(scheduled, named + children[..k])
      && |rows| > 0 && rows == before + Report(fetch, current[i].0) + [rows[|rows| - 1]]
      && Breaks(scheduled, children, current[i].1 + 1, k, rows[|rows| - 1])
    ensures Stopped(fetch, roots, base, scheduled, |reported| + i + 1, k, rows)
  {
    hide Breaks, Firsts, Order;
    var n := |reported| + i + 1;
    assert scheduled[n - 1] == (reported + current)[n - 1] == current[i];
    assert scheduled[..n - 1] == reported + current[..i];
    assert scheduled[..n][..n - 1] == scheduled[..n - 1];
    assert scheduled[..n][n - 1] == current[i];
    assert base + Reports(fetch, scheduled[..n - 1]) + Report(fetch, current[i].0)
        == base + Reports(fetch, scheduled[..n]);
  }

  ghost predicate Reachable(fetch: Graph, roots: seq<Digest>, d: Digest) {
    exists n :: Reach(fetch, roots, d, n)
  }

  /** At most 1024 digests are reachable, and each within 32 steps. */
  ghost predicate FitsBounds(fetch: Graph, roots: seq<Digest>) {
    exists all: set<Digest> :: |all| <= MAX_GRAPH_NODES && HoldsAll(fetch, roots, all)
  }

  ghost predicate HoldsAll(fetch: Graph, roots: seq<Digest>, all: set<Digest>) {
    forall d :: Reachable(fetch, roots, d) ==> d in all && Within(fetch, roots, d, MAX_GRAPH_DEPTH)
  }

  lemma FirstLevel(fetch: Graph, roots: seq<Digest>, visited: set<Digest>, added: seq<(Digest, nat)>)
    requires forall d :: d in visited ==> d in roots
    requires forall i :: 0 <= i < |added| ==> added[i].1 == 1
    requires Digests(added) <= visited
    ensures AllShortest(fetch, roots, added)
    ensures forall d :: d in visited ==> Within(fetch, roots, d, 1)
    ensures (forall d :: d in roots ==> d in visited) ==> forall d :: d in visited <==> Within(fetch, roots, d, 1)
    ensures (forall d :: d in roots ==> d in visited) ==> forall d :: d in visited <==> Shortest(fetch, roots, d, 1)
  {
    forall i | 0 <= i < |added| ensures Shortest(fetch, roots, added[i].0, added[i].1) {
      assert added[i].0 in Digests(added);
    }
    forall d ensures d in roots <==> Shortest(fetch, roots, d, 1) {}
    forall d ensures d in roots <==> Within(fetch, roots, d, 1) {
      if d in roots { assert Reach(fetch, roots, d, 1); }
    }
  }

  lemma NothingScheduled(fetch: Graph, roots: seq<Digest>)
    ensures Scheduled([]) && AllShortest(fetch, roots, [])
  {
  }

  /** Fetch a whole level; a store fault ends the run before anything of the level is scheduled. */
  method FetchLevel(fetch: Graph, level: seq<(Digest, nat)>) returns (faulted: bool)
    ensures faulted <==> !NoFault(fetch, level)
  {
    for i := 0 to |level|
      invariant forall j :: 0 <= j < i ==> fetch(level[j].0) != Fault
    {
      if fetch(level[i].0) == Fault { return true; }
    }
    faulted := false;
  }

  lemma LevelInBounds(scheduled: seq<(Digest, nat)>, i: nat)
    requires Scheduled(scheduled) && i < |scheduled|
    ensures scheduled[i].1 <= MAX_GRAPH_DEPTH
  {
  }

  lemma TooManyVisited(fetch: Graph, roots: seq<Digest>, visited: set<Digest>, n: nat)
    requires |visited| > MAX_GRAPH_NODES && forall d :: d in visited ==> Within(fetch, roots, d, n)
    ensures !FitsBounds(fetch, roots)
  {
    if FitsBounds(fetch, roots) {
      var all: set<Digest> :| |all| <= MAX_GRAPH_NODES && HoldsAll(fetch, roots, all);
      assert forall d :: d in visited ==> Reachable(fetch, roots, d);
      SubsetSize(visited, all);
    }
  }

  lemma TooDeepReached(fetch: Graph, roots: seq<Digest>, n: nat)
    requires n > MAX_GRAPH_DEPTH && Reaches(fetch, roots, n)
    ensures !FitsBounds(fetch, roots)
  {
    var d :| Shortest(fetch, roots, d, n);
    assert Reachable(fetch, roots, d);
  }

  lemma WalkedAll(fetch: Graph, roots: seq<Digest>, visited: set<Digest>, level: nat, scheduled: seq<(Digest, nat)>)
    requires level >= 1 && Scheduled(scheduled) && AllShortest(fetch, roots, scheduled)
    requires visited == Digests(scheduled) && |visited| == |scheduled|
    requires forall d :: d in visited <==> Within(fetch, roots, d, level)
    requires forall d :: !Shortest(fetch, roots, d, level)
    ensures FitsBounds(fetch, roots)
    ensures forall d :: d in visited <==> Reachable(fetch, roots, d)
  {
    hide Reach, Shortest;
    forall d ensures d in visited <==> Reachable(fetch, roots, d) {
      if n :| Reach(fetch, roots, d, n) {
        NothingBeyond(fetch, roots, level, d, n);
      }
    }
    forall d | d in visited ensures Within(fetch, roots, d, MAX_GRAPH_DEPTH) {
      var i :| 0 <= i < |scheduled| && scheduled[i].0 == d;
      ShortestWithin(fetch, roots, d, scheduled[i].1, MAX_GRAPH_DEPTH);
    }
    assert HoldsAll(fetch, roots, visited);
  }

  lemma ShortestWithin(fetch: Graph, roots: seq<Digest>, d: Digest, n: nat, bound: nat)
    requires n <= bound && Shortest(fetch, roots, d, n)
    ensures Within(fetch, roots, d, bound)
  {
  }

  /** The rows a fetched manifest leaves. */
  function Report(fetch: Graph, d: Digest): seq<Row> {
    if fetch(d).Fault? then [] else fetch(d).rows
  }

  /** The rows a level reports, in the order it was scheduled. */
  function Reports(fetch: Graph, level: seq<(Digest, nat)>): seq<Row> {
    if level == [] then [] else Reports(fetch, level[..|level| - 1]) + Report(fetch, level[|level| - 1].0)
  }

  /** Each manifest of a list contributes its own rows and children, at its own place. */
  lemma {:induction false} Contributes(fetch: Graph, roots: seq<Digest>, level: seq<(Digest, nat)>, i: nat)
    requires i < |level| && NoFault(fetch, level)
    ensures Reports(fetch, level[..i]) + fetch(level[i].0).rows <= Reports(fetch, level)
    ensures fetch(level[i].0).Accepted? ==>
      Named(fetch, roots, level[..i]) + fetch(level[i].0).children <= Named(fetch, roots, level)
    ensures roots <= Named(fetch, roots, level)
    ensures i == |level| - 1 ==> |Reports(fetch, level)| == |Reports(fetch, level[..i])| + |fetch(level[i].0).rows|
    ensures i == |level| - 1 && fetch(level[i].0).Rejected? ==>
      Named(fetch, roots, level) == Named(fetch, roots, level[..i])
    decreases |level|
  {
    var front := level[..|level| - 1];
    if i < |front| {
      assert front[..i] == level[..i];
      Contributes(fetch, roots, front, i);
    } else if front != [] {
      Contributes(fetch, roots, front, 0);
    }
  }

  ghost predicate ChildOf(fetch: Graph, level: seq<(Digest, nat)>, d: Digest) {
    exists i :: 0 <= i < |level| && Names(fetch, level[i].0, d)
  }

  lemma NoChildren(fetch: Graph)
    ensures forall d :: !ChildOf(fetch, [], d)
  {
  }

  lemma ChildrenAppend(fetch: Graph, level: seq<(Digest, nat)>, i: nat)
    requires i < |level|
    ensures forall d :: ChildOf(fetch, level[..i + 1], d) <==>
      ChildOf(fetch, level[..i], d) || Names(fetch, level[i].0, d)
  {
    forall d ensures ChildOf(fetch, level[..i + 1], d) <==> ChildOf(fetch, level[..i], d) || Names(fetch, level[i].0, d) {
      if ChildOf(fetch, level[..i], d) {
        var j :| 0 <= j < i && Names(fetch, level[..i][j].0, d);
        assert level[..i + 1][j] == level[..i][j];
      }
      assert level[..i + 1][i] == level[i];
    }
  }

  lemma DigestsConcat(a: seq<(Digest, nat)>, b: seq<(Digest, nat)>)
    ensures Digests(a + b) == Digests(a) + Digests(b)
  {
    forall d ensures d in Digests(a + b) <==> d in Digests(a) || d in Digests(b) {
      if d in Digests(a) {
        var i :| 0 <= i < |a| && a[i].0 == d;
        assert (a + b)[i].0 == d;
      }
      if d in Digests(b) {
        var i :| 0 <= i < |b| && b[i].0 == d;
        assert (a + b)[|a| + i].0 == d;
      }
    }
  }

  ghost predicate AllShortest(fetch: Graph, roots: seq<Digest>, scheduled: seq<(Digest, nat)>) {
    forall i :: 0 <= i < |scheduled| ==> Shortest(fetch, roots, scheduled[i].0, scheduled[i].1)
  }

  lemma AllShortestAppend(fetch: Graph, roots: seq<Digest>, scheduled: seq<(Digest, nat)>, added: seq<(Digest, nat)>, n: nat)
    requires AllShortest(fetch, roots, scheduled)
    requires forall i :: 0 <= i < |added| ==> added[i].1 == n
    requires forall d :: d in Digests(added) ==> Shortest(fetch, roots, d, n)
    ensures AllShortest(fetch, roots, scheduled + added)
  {
    hide Shortest;
    assert forall i :: 0 <= i < |added| ==> added[i].0 in Digests(added);
  }

  lemma ChildOfPrefix(fetch: Graph, level: seq<(Digest, nat)>, i: nat)
    requires i <= |level|
    ensures forall d :: ChildOf(fetch, level[..i], d) ==> ChildOf(fetch, level, d)
  {
    forall d | ChildOf(fetch, level[..i], d) ensures ChildOf(fetch, level, d) {
      var j :| 0 <= j < i && Names(fetch, level[..i][j].0, d);
      assert level[j] == level[..i][j];
    }
  }

  /** A digest first named by the level is one step further than the level. */
  lemma NewAreShortest(fetch: Graph, roots: seq<Digest>, current: seq<(Digest, nat)>, level: nat,
                       before: set<Digest>, visited: set<Digest>)
    requires level >= 1
    requires forall d :: d in before <==> Within(fetch, roots, d, level)
    requires forall d :: d in Digests(current) <==> Shortest(fetch, roots, d, level)
    requires forall d :: d in visited ==> d in before || ChildOf(fetch, current, d)
    ensures forall d :: d in visited - before ==> Shortest(fetch, roots, d, level + 1)
    ensures forall d :: d in visited ==> Within(fetch, roots, d, level + 1)
  {
    hide Reach, Within, Shortest;
    forall d | d in visited
      ensures Within(fetch, roots, d, level + 1)
      ensures d !in before ==> Shortest(fetch, roots, d, level + 1)
    {
      WithinNext(fetch, roots, d, level);
      ShortestIff(fetch, roots, d, level + 1);
      if d !in before {
        var i :| 0 <= i < |current| && Names(fetch, current[i].0, d);
        assert current[i].0 in Digests(current);
      }
    }
  }

  /** When the whole level is scheduled, what is visited is everything one step further. */
  lemma LevelDone(fetch: Graph, roots: seq<Digest>, current: seq<(Digest, nat)>, level: nat,
                  before: set<Digest>, visited: set<Digest>)
    requires level >= 1
    requires forall d :: d in before <==> Within(fetch, roots, d, level)
    requires forall d :: d in Digests(current) <==> Shortest(fetch, roots, d, level)
    requires forall d :: d in visited <==> d in before || ChildOf(fetch, current, d)
    ensures forall d :: d in visited <==> Within(fetch, roots, d, level + 1)
    ensures forall d :: d in visited - before <==> Shortest(fetch, roots, d, level + 1)
  {
    hide Reach, Within, Shortest;
    NewAreShortest(fetch, roots, current, level, before, visited);
    forall d
      ensures d in visited <==> Within(fetch, roots, d, level + 1)
      ensures d in visited - before <==> Shortest(fetch, roots, d, level + 1)
    {
      WithinNext(fetch, roots, d, level);
      ShortestIff(fetch, roots, d, level + 1);
      if p :| Shortest(fetch, roots, p, level) && Names(fetch, p, d) {
        assert p in Digests(current);
        var i :| 0 <= i < |current| && current[i].0 == p;
        assert ChildOf(fetch, current, d);
      }
    }
  }
}
