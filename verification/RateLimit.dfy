/**
  The fixed-window request limiter.  Times are nanoseconds since the limiter was built, as the source's
  clock gives them; buckets are never evicted.
*/
module RateLimit {
  import opened Common

  const NANOS: nat := 1_000_000_000

  datatype RouteClass = Listing | Metadata | Artifact | Upload | Admin | Authentication

  datatype RouteLimit = RouteLimit(requests: nat, windowSecs: nat)

  type Config = RouteClass -> RouteLimit

  datatype BucketKey = BucketKey(class_: RouteClass, actor: nat)

  datatype Window = Window(resetAt: nat, used: nat)

  type Buckets = map<BucketKey, Window>

  predicate IsLimited(config: Config, class_: RouteClass) {
    config(class_).requests != 0 && config(class_).windowSecs != 0
  }

  function Length(config: Config, class_: RouteClass): nat {
    config(class_).windowSecs * NANOS
  }

  /** The whole seconds left of a window, and at least one. */
  function RetryAfter(window: Window, now: nat): nat {
    var left := if window.resetAt > now then (window.resetAt - now) / NANOS else 0;
    if left > 1 then left else 1
  }

  /**
    The advice is the whole seconds left, so heeding it reaches the next window exactly when less than a
    second, or a whole number of seconds, is left of this one.
  */
  lemma AdviceReachesResetIff(window: Window, now: nat)
    requires now < window.resetAt
    ensures now + RetryAfter(window, now) * NANOS >= window.resetAt <==>
      window.resetAt - now < NANOS || (window.resetAt - now) % NANOS == 0
    ensures RetryAfter(window, now) >= 1
    ensures window.resetAt - now >= NANOS ==>
      RetryAfter(window, now) * NANOS <= window.resetAt - now < (RetryAfter(window, now) + 1) * NANOS
    ensures window.resetAt - now < NANOS ==> RetryAfter(window, now) == 1
  {
    var left := window.resetAt - now;
    var whole := left / NANOS;
    assert left == whole * NANOS + left % NANOS;
  }

  /** The window a charge at `now` falls in. */
  function Current(config: Config, buckets: Buckets, key: BucketKey, now: nat): Window {
    if key in buckets && now < buckets[key].resetAt then buckets[key]
    else Window(now + Length(config, key.class_), 0)
  }

  predicate Admits(config: Config, buckets: Buckets, key: BucketKey, now: nat) {
    IsLimited(config, key.class_) ==> Current(config, buckets, key, now).used < config(key.class_).requests
  }

  /** The buckets after a charge. */
  function Charged(config: Config, buckets: Buckets, key: BucketKey, now: nat): Buckets {
    if !IsLimited(config, key.class_) then buckets else
      var window := Current(config, buckets, key, now);
      if Admits(config, buckets, key, now) then buckets[key := window.(used := window.used + 1)]
      else buckets[key := window]
  }

  /** Only limited classes have buckets, and each was charged, never past its limit. */
  ghost predicate Sound(config: Config, buckets: Buckets) {
    forall key :: key in buckets ==>
      IsLimited(config, key.class_) && 1 <= buckets[key].used <= config(key.class_).requests
  }

  lemma ChargedSound(config: Config, buckets: Buckets, key: BucketKey, now: nat)
    requires Sound(config, buckets)
    ensures Sound(config, Charged(config, buckets, key, now))
  {
  }

  /**
    A class without requests or without a window is not limited.  Otherwise a charge is admitted exactly when its
    bucket has no window, or one that has passed, or one with a request left.
  */
  lemma AdmitsIff(config: Config, buckets: Buckets, key: BucketKey, now: nat)
    ensures var limit := config(key.class_);
      Admits(config, buckets, key, now) <==>
        || limit.requests == 0 || limit.windowSecs == 0
        || key !in buckets || now >= buckets[key].resetAt || buckets[key].used < limit.requests
  {
  }

  /** What a charge leaves: no other bucket changes, and a new window lasts its seconds from the charge on. */
  lemma ChargeLeaves(config: Config, buckets: Buckets, key: BucketKey, now: nat)
    ensures var limit, after := config(key.class_), Charged(config, buckets, key, now);
      && (forall k :: k != key ==> (k in after <==> k in buckets) && (k in buckets ==> after[k] == buckets[k]))
      && (limit.requests == 0 || limit.windowSecs == 0 ==> after == buckets)
      && (limit.requests != 0 && limit.windowSecs != 0 ==>
        && key in after
        && (key !in buckets || now >= buckets[key].resetAt ==>
              after[key] == Window(now + limit.windowSecs * 1_000_000_000, 1))
        && (key in buckets && now < buckets[key].resetAt ==>
              && after[key].resetAt == buckets[key].resetAt
              && after[key].used == buckets[key].used + (if buckets[key].used < limit.requests then 1 else 0)))
  {
  }

  function Bump(counters: map<RouteClass, nat>, class_: RouteClass): map<RouteClass, nat> {
    counters[class_ := (if class_ in counters then counters[class_] else 0) + 1]
  }

  /** One more for the class, the first included, and no other class counted. */
  lemma BumpCounts(counters: map<RouteClass, nat>, class_: RouteClass, other: RouteClass)
    ensures var after := Bump(counters, class_);
      && class_ in after && after[class_] >= 1
      && (class_ in counters ==> after[class_] - counters[class_] == 1) && (class_ !in counters ==> after[class_] == 1)
      && (other != class_ ==>
            (other in after <==> other in counters) && (other in counters ==> after[other] == counters[other]))
  {
  }

  class RateLimiter {
    const config: Config
    var buckets: Buckets
    var allowed: map<RouteClass, nat>
    var denied: map<RouteClass, nat>

    ghost predicate Valid()
      reads this
    {
      Sound(config, buckets)
    }

    constructor (config: Config)
      ensures Valid() && this.config == config && buckets == map[] && allowed == map[] && denied == map[]
    {
      this.config := config;
      buckets, allowed, denied := map[], map[], map[];
    }

    method Check(class_: RouteClass, actor: nat, now: nat) returns (result: Result<(), nat>)
      requires Valid()
      modifies this
      ensures Valid()
      ensures var key := BucketKey(class_, actor);
        && buckets == Charged(config, old(buckets), key, now)
        && (result.Ok? <==> Admits(config, old(buckets), key, now))
        && (result.Ok? ==> allowed == Bump(old(allowed), class_) && denied == old(denied))
        && (result.Err? ==>
          && allowed == old(allowed) && denied == Bump(old(denied), class_)
          && result.error == RetryAfter(buckets[key], now))
    {
      hide Sound, Bump, RetryAfter;
      var limit := config(class_);
      ChargedSound(config, buckets, BucketKey(class_, actor), now);
      if limit.requests == 0 || limit.windowSecs == 0 {
        allowed := Bump(allowed, class_);
        return Ok(());
      }
      var key := BucketKey(class_, actor);
      var length := limit.windowSecs * NANOS;
      if key !in buckets {
        buckets := buckets[key := Window(now + length, 0)];
      }
      if now >= buckets[key].resetAt {
        buckets := buckets[key := Window(now + length, 0)];
      }
      if buckets[key].used < limit.requests {
        buckets := buckets[key := buckets[key].(used := buckets[key].used + 1)];
        assert buckets == Charged(config, old(buckets), key, now);
        allowed := Bump(allowed, class_);
        return Ok(());
      }
      assert buckets == Charged(config, old(buckets), key, now);
      denied := Bump(denied, class_);
      result := Err(RetryAfter(buckets[key], now));
    }

    /** Denies exactly when a charge at the same instant would, with the same advice, and charges nothing. */
    method Probe(class_: RouteClass, actor: nat, now: nat) returns (result: Result<(), nat>)
      requires Valid()
      modifies this`denied
      ensures var key := BucketKey(class_, actor);
        && (result.Ok? <==> Admits(config, buckets, key, now))
        && (result.Ok? ==> denied == old(denied))
        && (result.Err? ==>
          && denied == Bump(old(denied), class_)
          && result.error == RetryAfter(Charged(config, buckets, key, now)[key], now))
    {
      var key := BucketKey(class_, actor);
      if key !in buckets { return Ok(()); }
      if buckets[key].used < config(class_).requests || now >= buckets[key].resetAt {
        return Ok(());
      }
      denied := Bump(denied, class_);
      result := Err(RetryAfter(buckets[key], now));
    }
  }

  // ---------------------------------------------------------------------------------------------
  // Whole runs
  // ---------------------------------------------------------------------------------------------

  /** A charge of any bucket; probes change nothing and are left out of a run. */
  datatype Charge = Charge(key: BucketKey, now: nat)

  ghost predicate Ordered(run: seq<Charge>) {
    forall i, j :: 0 <= i < j < |run| ==> run[i].now <= run[j].now
  }

  predicate Counts(charge: Charge, key: BucketKey, from: nat, to: nat) {
    charge.key == key && from <= charge.now < to
  }

  /** How many charges of `key` with `from <= now < to` a run admits. */
  function Admitted(config: Config, buckets: Buckets, run: seq<Charge>, key: BucketKey, from: nat, to: nat): nat
    decreases |run|
  {
    if run == [] then 0 else
      (if Counts(run[0], key, from, to) && Admits(config, buckets, key, run[0].now) then 1 else 0)
      + Admitted(config, Charged(config, buckets, run[0].key, run[0].now), run[1..], key, from, to)
  }

  lemma OrderedRest(run: seq<Charge>)
    requires Ordered(run) && run != []
    ensures Ordered(run[1..]) && forall i :: 0 <= i < |run| ==> run[0].now <= run[i].now
  {
  }

  lemma {:induction false} NoneLater(config: Config, buckets: Buckets, run: seq<Charge>, key: BucketKey, from: nat, to: nat)
    requires forall i :: 0 <= i < |run| ==> to <= run[i].now
    ensures Admitted(config, buckets, run, key, from, to) == 0
    decreases |run|
  {
    if run != [] {
      NoneLater(config, Charged(config, buckets, run[0].key, run[0].now), run[1..], key, from, to);
    }
  }

  /** What a window leaves of an interval that ends before its successor does. */
  function Left(config: Config, key: BucketKey, window: Window, to: nat): int {
    config(key.class_).requests - window.used + (if to > window.resetAt then config(key.class_).requests else 0)
  }

  lemma {:induction false} AfterWindow(config: Config, buckets: Buckets, run: seq<Charge>, key: BucketKey, from: nat, to: nat)
    requires Sound(config, buckets) && Ordered(run) && key in buckets
    requires to <= buckets[key].resetAt + Length(config, key.class_)
    ensures Admitted(config, buckets, run, key, from, to) <= Left(config, key, buckets[key], to)
    decreases |run|
  {
    if run != [] {
      hide Length, Ordered;
      OrderedRest(run);
      var next := Charged(config, buckets, run[0].key, run[0].now);
      ChargedSound(config, buckets, run[0].key, run[0].now);
      if run[0].key == key && run[0].now >= buckets[key].resetAt && run[0].now >= to {
        NoneLater(config, next, run[1..], key, from, to);
      } else {
        AfterWindow(config, next, run[1..], key, from, to);
      }
    }
  }

  /**
    In any interval of one window length, from any sound state and over any nondecreasing clock, a bucket
    admits at most `2 * requests - 1` charges: two windows meet in it only if the first was opened, and so
    charged, before it began.
  */
  lemma {:induction false} IntervalBound(config: Config, buckets: Buckets, run: seq<Charge>, key: BucketKey, from: nat)
    requires Sound(config, buckets) && Ordered(run)
    requires config(key.class_).requests != 0 && config(key.class_).windowSecs != 0
    ensures Admitted(config, buckets, run, key, from, from + config(key.class_).windowSecs * 1_000_000_000)
      <= 2 * config(key.class_).requests - 1
    decreases |run|
  {
    var to := from + Length(config, key.class_);
    assert to == from + config(key.class_).windowSecs * 1_000_000_000;
    hide Length, Ordered;
    if key in buckets && buckets[key].resetAt >= from {
      AfterWindow(config, buckets, run, key, from, to);
    } else if run != [] {
      OrderedRest(run);
      var next := Charged(config, buckets, run[0].key, run[0].now);
      ChargedSound(config, buckets, run[0].key, run[0].now);
      if run[0].key == key && run[0].now >= from {
        AfterWindow(config, next, run[1..], key, from, to);
      } else {
        IntervalBound(config, next, run[1..], key, from);
      }
    }
  }

  /** While its window lasts, a bucket admits only what the window has left. */
  lemma WindowBound(config: Config, buckets: Buckets, run: seq<Charge>, key: BucketKey)
    requires Sound(config, buckets) && Ordered(run) && key in buckets
    ensures buckets[key].used + Admitted(config, buckets, run, key, 0, buckets[key].resetAt) <= config(key.class_).requests
  {
    AfterWindow(config, buckets, run, key, 0, buckets[key].resetAt);
  }

  // ---------------------------------------------------------------------------------------------
  // The bound is reached
  // ---------------------------------------------------------------------------------------------

  function Burst(key: BucketKey, now: nat, n: nat): seq<Charge> {
    seq(n, i => Charge(key, now))
  }

  /** `n` charges at one instant within a window are admitted while the window has room. */
  lemma {:induction false} BurstAdmitted(config: Config, buckets: Buckets, key: BucketKey, now: nat, n: nat,
                                         rest: seq<Charge>, from: nat, to: nat)
    requires IsLimited(config, key.class_) && from <= now < to
    requires key in buckets && now < buckets[key].resetAt
    requires buckets[key].used + n <= config(key.class_).requests
    ensures Admitted(config, buckets, Burst(key, now, n) + rest, key, from, to)
      == n + Admitted(config, buckets[key := buckets[key].(used := buckets[key].used + n)], rest, key, from, to)
    decreases n
  {
    var run := Burst(key, now, n) + rest;
    if n == 0 {
      assert run == rest;
      assert buckets[key := buckets[key]] == buckets;
    } else {
      var next := Charged(config, buckets, key, now);
      assert run[0] == Charge(key, now);
      assert run[1..] == Burst(key, now, n - 1) + rest;
      BurstAdmitted(config, next, key, now, n - 1, rest, from, to);
      assert next[key := next[key].(used := next[key].used + (n - 1))]
        == buckets[key := buckets[key].(used := buckets[key].used + n)];
    }
  }

  /** One charge opens a window; the rest come at its end and at the start of the next. */
  function Worst(config: Config, key: BucketKey): seq<Charge>
    requires IsLimited(config, key.class_)
  {
    var n, length := config(key.class_).requests, Length(config, key.class_);
    [Charge(key, 0)] + (Burst(key, length - 1, n - 1) + ([Charge(key, length)] + (Burst(key, length, n - 1) + [])))
  }

  lemma WorstOrdered(config: Config, key: BucketKey)
    requires IsLimited(config, key.class_)
    ensures Ordered(Worst(config, key)) && Length(config, key.class_) > 1
  {
  }

  lemma ChargeFirst(config: Config, buckets: Buckets, now: nat, rest: seq<Charge>, key: BucketKey, from: nat, to: nat)
    ensures Admitted(config, buckets, [Charge(key, now)] + rest, key, from, to)
      == (if from <= now < to && Admits(config, buckets, key, now) then 1 else 0)
      + Admitted(config, Charged(config, buckets, key, now), rest, key, from, to)
  {
    assert ([Charge(key, now)] + rest)[1..] == rest;
  }

  /** For every limit there is an ordered run and an interval that reach the bound. */
  lemma BoundReached(config: Config, key: BucketKey)
    requires config(key.class_).requests != 0 && config(key.class_).windowSecs != 0
    ensures Ordered(Worst(config, key))
    ensures var length := config(key.class_).windowSecs * 1_000_000_000;
      Admitted(config, map[], Worst(config, key), key, length - 1, length - 1 + length)
        == 2 * config(key.class_).requests - 1
  {
    hide Admitted, Ordered, Worst;
    WorstOrdered(config, key);
    WorstAdmits(config, key);
  }

  lemma WorstAdmits(config: Config, key: BucketKey)
    requires IsLimited(config, key.class_)
    ensures var length := Length(config, key.class_);
      length > 1
      && Admitted(config, map[], Worst(config, key), key, length - 1, length - 1 + length)
         == 2 * config(key.class_).requests - 1
  {
    WorstOrdered(config, key);
    hide Admitted, Burst, Length, Charged, Admits;
    var n, length := config(key.class_).requests, Length(config, key.class_);
    var from, to := length - 1, length - 1 + length;
    var second := [Charge(key, length)] + (Burst(key, length, n - 1) + []);
    var first := Burst(key, length - 1, n - 1) + second;
    var begun: Buckets := map[key := Window(length, 1)];
    ChargeFirst(config, map[], 0, first, key, from, to);
    Opens(config, map[], key, 0);
    BurstAdmitted(config, begun, key, length - 1, n - 1, second, from, to);
    NextWindowAdmits(config, begun[key := Window(length, n)], key, length, from, to);
  }

  /** A burst at the end of a window fills the next one. */
  lemma NextWindowAdmits(config: Config, buckets: Buckets, key: BucketKey, now: nat, from: nat, to: nat)
    requires IsLimited(config, key.class_) && Length(config, key.class_) > 0 && from <= now < to
    requires key in buckets && now >= buckets[key].resetAt
    ensures var n := config(key.class_).requests;
      Admitted(config, buckets, [Charge(key, now)] + (Burst(key, now, n - 1) + []), key, from, to) == n
  {
    hide Admitted, Burst, Length, Charged, Admits;
    var n := config(key.class_).requests;
    var again := buckets[key := Window(now + Length(config, key.class_), 1)];
    ChargeFirst(config, buckets, now, Burst(key, now, n - 1) + [], key, from, to);
    Opens(config, buckets, key, now);
    BurstAdmitted(config, again, key, now, n - 1, [], from, to);
    NoneAdmitted(config, again[key := again[key].(used := again[key].used + (n - 1))], key, from, to);
  }

  lemma NoneAdmitted(config: Config, buckets: Buckets, key: BucketKey, from: nat, to: nat)
    ensures Admitted(config, buckets, [], key, from, to) == 0
  {
  }

  // ---------------------------------------------------------------------------------------------
  // Clocks out of order
  // ---------------------------------------------------------------------------------------------

  /** Charges of `key` reach its bucket out of clock order, but by less than `window`. */
  ghost predicate NearlyOrdered(run: seq<Charge>, key: BucketKey, window: nat) {
    forall i, j :: 0 <= i < j < |run| && run[i].key == key && run[j].key == key ==> run[i].now < run[j].now + window
  }

  /** So do they with respect to the charge that opened the bucket's window. */
  ghost predicate AfterOpening(buckets: Buckets, run: seq<Charge>, key: BucketKey, window: nat) {
    key in buckets ==> forall j :: 0 <= j < |run| && run[j].key == key ==> buckets[key].resetAt < run[j].now + 2 * window
  }

  /**
    What is left of the interval of one window from `from`, told from where the current window was opened.
    Late charges reach back into windows opened up to one window length after the interval.
  */
  function SkewLeft(limit: nat, window: nat, current: Window, from: nat): int {
    var opening := current.resetAt - window;
    if opening >= from + 2 * window then 0
    else if opening >= from + window then limit - current.used
    else if opening >= from then limit - current.used + limit - 1
    else if opening > from - window then limit - current.used + 2 * limit - 1
    else 3 * limit - 2
  }

  lemma NearlyOrderedRest(buckets: Buckets, run: seq<Charge>, key: BucketKey, window: nat)
    requires NearlyOrdered(run, key, window) && run != []
    ensures NearlyOrdered(run[1..], key, window)
    ensures AfterOpening(buckets, run, key, window) ==> AfterOpening(buckets, run[1..], key, window)
    ensures run[0].key == key && key in buckets && buckets[key].resetAt == run[0].now + window ==>
      AfterOpening(buckets, run[1..], key, window)
  {
    forall j | 0 <= j < |run[1..]| && run[0].key == key && run[1..][j].key == key
      ensures run[0].now < run[1..][j].now + window
    {
      assert run[1..][j] == run[j + 1];
    }
  }

  /** One charge uses up of the interval at least what it adds to the count. */
  lemma SkewStep(config: Config, buckets: Buckets, key: BucketKey, now: nat, from: nat, window: nat)
    requires Sound(config, buckets) && IsLimited(config, key.class_) && window == Length(config, key.class_) > 0
    requires key in buckets ==> buckets[key].resetAt < now + 2 * window
    ensures var limit, next := config(key.class_).requests, Charged(config, buckets, key, now);
      && key in next
      && (if from <= now < from + window && Admits(config, buckets, key, now) then 1 else 0)
         + SkewLeft(limit, window, next[key], from)
         <= (if key in buckets then SkewLeft(limit, window, buckets[key], from) else 3 * limit - 2)
      && (next[key].resetAt == now + window || (key in buckets && next[key].resetAt == buckets[key].resetAt))
  {
    hide Length;
  }

  lemma {:induction false} SkewAfter(config: Config, buckets: Buckets, run: seq<Charge>, key: BucketKey, from: nat, window: nat)
    requires Sound(config, buckets) && IsLimited(config, key.class_) && window == Length(config, key.class_) > 0
    requires NearlyOrdered(run, key, window) && AfterOpening(buckets, run, key, window)
    ensures var limit := config(key.class_).requests;
      Admitted(config, buckets, run, key, from, from + window)
        <= if key in buckets then SkewLeft(limit, window, buckets[key], from) else 3 * limit - 2
    decreases |run|
  {
    hide Length, NearlyOrdered, SkewLeft;
    SkewLeftPositive(config, buckets, key, from, window);
    if run != [] {
      var now := run[0].now;
      var next := Charged(config, buckets, run[0].key, now);
      ChargedSound(config, buckets, run[0].key, now);
      NearlyOrderedRest(buckets, run, key, window);
      NearlyOrderedRest(next, run, key, window);
      if run[0].key == key { SkewStep(config, buckets, key, now, from, window); }
      OpeningKept(buckets, next, run, key, window);
      SkewAfter(config, next, run[1..], key, from, window);
    }
  }

  lemma SkewLeftPositive(config: Config, buckets: Buckets, key: BucketKey, from: nat, window: nat)
    requires Sound(config, buckets) && IsLimited(config, key.class_)
    ensures key in buckets ==> SkewLeft(config(key.class_).requests, window, buckets[key], from) >= 0
  {
  }

  lemma OpeningKept(buckets: Buckets, next: Buckets, run: seq<Charge>, key: BucketKey, window: nat)
    requires run != [] && AfterOpening(buckets, run, key, window)
    requires AfterOpening(next, run[1..], key, window) || (key in next <==> key in buckets)
    requires !AfterOpening(next, run[1..], key, window) && key in next ==> next[key].resetAt == buckets[key].resetAt
    ensures AfterOpening(next, run[1..], key, window)
  {
    assert forall j :: 0 <= j < |run[1..]| ==> run[1..][j] == run[j + 1];
  }

  /**
    When charges may reach a bucket out of clock order by less than one window, it admits at most
    `3 * requests - 2` of the charges of any interval of one window length.
  */
  lemma SkewBound(config: Config, buckets: Buckets, run: seq<Charge>, key: BucketKey, from: nat)
    requires Sound(config, buckets) && config(key.class_).requests != 0 && config(key.class_).windowSecs != 0
    requires NearlyOrdered(run, key, config(key.class_).windowSecs * 1_000_000_000)
    requires AfterOpening(buckets, run, key, config(key.class_).windowSecs * 1_000_000_000)
    ensures Admitted(config, buckets, run, key, from, from + config(key.class_).windowSecs * 1_000_000_000)
      <= 3 * config(key.class_).requests - 2
  {
    var window := Length(config, key.class_);
    SkewAfter(config, buckets, run, key, from, window);
    SkewLeftAtMost(config, buckets, key, from, window);
  }

  lemma SkewLeftAtMost(config: Config, buckets: Buckets, key: BucketKey, from: nat, window: nat)
    requires Sound(config, buckets) && IsLimited(config, key.class_)
    ensures key in buckets ==>
      SkewLeft(config(key.class_).requests, window, buckets[key], from) <= 3 * config(key.class_).requests - 2
  {
  }

  /** Two windows as in the worst ordered run, then late charges into a third. */
  function WorstSkewed(config: Config, key: BucketKey): seq<Charge>
    requires IsLimited(config, key.class_)
  {
    var n, length := config(key.class_).requests, Length(config, key.class_);
    [Charge(key, 1)] + (Burst(key, length, n - 1)
      + ([Charge(key, length + 1)] + (Burst(key, length + 1, n - 1)
      + ([Charge(key, 2 * length + 1)] + (Burst(key, 2 * length - 1, n - 1) + [])))))
  }

  lemma WorstNearlyOrdered(config: Config, key: BucketKey)
    requires IsLimited(config, key.class_)
    ensures NearlyOrdered(WorstSkewed(config, key), key, Length(config, key.class_))
  {
    var length := Length(config, key.class_);
    assert length >= NANOS;
    var run := WorstSkewed(config, key);
    forall i, j | 0 <= i < j < |run| ensures run[i].now < run[j].now + length {
      assert run[j].now >= 1;
      if run[i].now > length { assert run[j].now > length; }
    }
  }

  /** For every limit such a run reaches that bound. */
  lemma SkewBoundReached(config: Config, key: BucketKey)
    requires config(key.class_).requests != 0 && config(key.class_).windowSecs != 0
    ensures NearlyOrdered(WorstSkewed(config, key), key, config(key.class_).windowSecs * 1_000_000_000)
    ensures var length := config(key.class_).windowSecs * 1_000_000_000;
      Admitted(config, map[], WorstSkewed(config, key), key, length, length + length) == 3 * config(key.class_).requests - 2
  {
    hide Admitted, WorstSkewed, NearlyOrdered;
    WorstNearlyOrdered(config, key);
    SkewedAdmits(config, key);
  }

  lemma SkewedAdmits(config: Config, key: BucketKey)
    requires IsLimited(config, key.class_)
    ensures var length := Length(config, key.class_);
      Admitted(config, map[], WorstSkewed(config, key), key, length, length + length) == 3 * config(key.class_).requests - 2
  {
    hide Admitted, Burst, Length;
    WorstOrdered(config, key);
    var n, length := config(key.class_).requests, Length(config, key.class_);
    var from, to := length, length + length;
    var last := Burst(key, 2 * length - 1, n - 1) + [];
    var third := [Charge(key, 2 * length + 1)] + last;
    var middle := Burst(key, length + 1, n - 1) + third;
    var second := [Charge(key, length + 1)] + middle;
    var first := Burst(key, length, n - 1) + second;
    ChargeFirst(config, map[], 1, first, key, from, to);
    Opens(config, map[], key, 1);
    var a: Buckets := map[key := Window(length + 1, 1)];
    BurstAdmitted(config, a, key, length, n - 1, second, from, to);
    var b := a[key := Window(length + 1, n)];
    ChargeFirst(config, b, length + 1, middle, key, from, to);
    Opens(config, b, key, length + 1);
    var c := b[key := Window(2 * length + 1, 1)];
    BurstAdmitted(config, c, key, length + 1, n - 1, third, from, to);
    var d := c[key := Window(2 * length + 1, n)];
    ChargeFirst(config, d, 2 * length + 1, last, key, from, to);
    Opens(config, d, key, 2 * length + 1);
    var e := d[key := Window(3 * length + 1, 1)];
    BurstAdmitted(config, e, key, 2 * length - 1, n - 1, [], from, to);
    NoneAdmitted(config, e[key := Window(3 * length + 1, n)], key, from, to);
  }

  /** A charge at or past the end of a window opens the next. */
  lemma Opens(config: Config, buckets: Buckets, key: BucketKey, now: nat)
    requires IsLimited(config, key.class_) && (key in buckets ==> now >= buckets[key].resetAt)
    ensures Admits(config, buckets, key, now)
    ensures Charged(config, buckets, key, now) == buckets[key := Window(now + Length(config, key.class_), 1)]
  {
  }
}
