/**
  The bounded bearer-token cache: least-recently-used eviction under an entry budget and a byte budget,
  with an expiry on every entry.

  Strings are byte sequences, so a length is the number of bytes the source counts.
*/
module TokenCache {
  import opened Common
  import opened Utf8
  import Sorting

  const MAX_ENTRIES: nat := 512
  const MAX_BYTES: nat := 2 * 1024 * 1024
  const DEFAULT_LIFETIME_SECS: int := 60
  const MAX_LIFETIME_SECS: int := 3600
  const EXPIRY_SKEW_SECS: int := 5

  type Text = seq<byte>

  datatype Key = Key(base: Text, scope: Text, provider: nat)

  datatype Entry = Entry(credentials: nat, value: Text, expiresAt: int, usedAt: nat)

  type Entries = map<Key, Entry>

  function Weight(key: Key, value: Text): nat {
    |key.base| + |key.scope| + |value|
  }

  /** The bytes a set of entries retains. */
  ghost function Total(m: Entries): nat {
    if m == map[] then 0 else var k :| k in m; Weight(k, m[k].value) + Total(m - {k})
  }

  lemma {:induction false} TotalRemove(m: Entries, key: Key)
    requires key in m
    ensures Total(m) == Weight(key, m[key].value) + Total(m - {key})
    decreases |m|
  {
    var k :| k in m && Total(m) == Weight(k, m[k].value) + Total(m - {k});
    if k != key {
      TotalRemove(m - {k}, key);
      TotalRemove(m - {key}, k);
      assert m - {k} - {key} == m - {key} - {k};
    }
  }

  /** The byte count is the sum, over the entries, of the lengths of base, scope and token. */
  lemma BytesCounted(m: Entries, key: Key)
    ensures Total(map[]) == 0
    ensures key in m ==> Total(m) == Total(m - {key}) + |key.base| + |key.scope| + |m[key].value|
  {
    if key in m { TotalRemove(m, key); }
  }

  lemma TotalInsert(m: Entries, key: Key, e: Entry)
    ensures key !in m ==> Total(m[key := e]) == Total(m) + Weight(key, e.value)
    ensures key in m ==>
      Total(m[key := e]) == Total(m) + Weight(key, e.value) - Weight(key, m[key].value)
  {
    TotalRemove(m[key := e], key);
    assert m[key := e] - {key} == m - {key};
    if key in m {
      TotalRemove(m, key);
    } else {
      assert m - {key} == m;
    }
  }

  ghost predicate Submap(a: Entries, b: Entries) {
    forall k :: k in a ==> k in b && a[k] == b[k]
  }

  lemma {:induction false} SubmapSmaller(a: Entries, b: Entries)
    requires Submap(a, b)
    ensures |a| <= |b| && Total(a) <= Total(b)
    decreases |a|
  {
    if k :| k in a {
      TotalRemove(a, k);
      TotalRemove(b, k);
      SubmapSmaller(a - {k}, b - {k});
    }
  }

  ghost predicate Within(m: Entries) {
    |m| <= MAX_ENTRIES && Total(m) <= MAX_BYTES
  }

  // ---------------------------------------------------------------------------------------------
  // What eviction must leave
  // ---------------------------------------------------------------------------------------------

  /** The entries served after use number `t`. */
  ghost function Newer(m: Entries, t: int): Entries {
    map k | k in m && m[k].usedAt > t :: m[k]
  }

  /** No two entries share a use number. */
  ghost predicate UsesDistinct(m: Entries) {
    forall j, k :: j in m && k in m && j != k ==> m[j].usedAt != m[k].usedAt
  }

  /** `r` is a most recently used suffix of `m` within both budgets, and every such suffix is part of it. */
  ghost predicate LargestSuffix(m: Entries, r: Entries) {
    && Within(r)
    && (exists t :: r == Newer(m, t))
    && (forall t :: Within(Newer(m, t)) ==> Submap(Newer(m, t), r))
  }

  lemma LargestSuffixUnique(m: Entries, r: Entries, s: Entries)
    requires LargestSuffix(m, r) && LargestSuffix(m, s)
    ensures r == s
  {
    var t :| r == Newer(m, t);
    var u :| s == Newer(m, u);
    assert Submap(r, s) && Submap(s, r);
    assert forall k :: k in r <==> k in s;
  }

  /** A cache within budget loses nothing. */
  lemma NothingEvicted(m: Entries, r: Entries)
    requires LargestSuffix(m, r) && Within(m)
    ensures r == m
  {
    assert Newer(m, -1) == m;
    var t :| r == Newer(m, t);
    assert forall k :: k in r <==> k in m;
  }

  /** Whatever is evicted was used before whatever survives, and putting the latest victim back overflows. */
  lemma EvictedAreOldest(m: Entries, r: Entries, victim: Key)
    requires UsesDistinct(m) && LargestSuffix(m, r) && victim in m && victim !in r
    ensures Submap(r, m)
    ensures forall k :: k in r ==> m[victim].usedAt < m[k].usedAt
    ensures !Within(Newer(m, m[victim].usedAt - 1))
  {
    var t :| r == Newer(m, t);
    var kept := Newer(m, m[victim].usedAt - 1);
    assert victim in kept;
    assert !Submap(kept, r);
  }

  /**
    The entry just added is the most recent.  It survives exactly when it fits the byte budget alone, and
    one that does not fit takes every other entry with it.
  */
  lemma NewestSurvivesIff(m: Entries, r: Entries, newest: Key)
    requires newest in m && LargestSuffix(m, r)
    requires forall k :: k in m && k != newest ==> m[k].usedAt < m[newest].usedAt
    ensures newest in r <==> Weight(newest, m[newest].value) <= MAX_BYTES
    ensures newest !in r ==> r == map[]
  {
    var alone := Newer(m, m[newest].usedAt - 1);
    assert alone == map[newest := m[newest]];
    TotalRemove(alone, newest);
    assert alone - {newest} == map[];
    assert Total(map[]) == 0;
    assert Within(alone) <==> Weight(newest, m[newest].value) <= MAX_BYTES;
    var t :| r == Newer(m, t);
    if newest in r {
      assert Submap(alone, r);
      SubmapSmaller(alone, r);
    } else {
      assert newest in alone;
      assert !Submap(alone, r);
      assert forall k :: k !in r;
    }
  }

  // ---------------------------------------------------------------------------------------------
  // The cache as a value
  // ---------------------------------------------------------------------------------------------

  datatype Cache = Cache(entries: Entries, uses: nat)

  ghost predicate Fits(c: Cache) {
    && UsesDistinct(c.entries)
    && (forall k :: k in c.entries ==> c.entries[k].usedAt <= c.uses)
    && Within(c.entries)
  }

  /** What a lookup answers, and the cache it leaves. */
  function Looked(c: Cache, key: Key, identity: nat, now: int): (Cache, Option<Text>) {
    if key in c.entries && c.entries[key].expiresAt <= now then
      (Cache(c.entries - {key}, c.uses), None)
    else if key in c.entries && c.entries[key].credentials == identity then
      (Cache(c.entries[key := c.entries[key].(usedAt := c.uses + 1)], c.uses + 1), Some(c.entries[key].value))
    else
      (Cache(c.entries, c.uses + 1), None)
  }

  function Swept(m: Entries, now: int): Entries {
    map k | k in m && m[k].expiresAt > now :: m[k]
  }

  /** The entries of an insert before eviction. */
  function Added(c: Cache, key: Key, credentials: nat, value: Text, expiresAt: int, now: int): Entries {
    Swept(c.entries, now)[key := Entry(credentials, value, expiresAt, c.uses + 1)]
  }

  ghost predicate Inserted(c: Cache, key: Key, credentials: nat, value: Text, expiresAt: int, now: int, d: Cache) {
    d.uses == c.uses + 1 && LargestSuffix(Added(c, key, credentials, value, expiresAt, now), d.entries)
  }

  lemma LookedFits(c: Cache, key: Key, identity: nat, now: int)
    requires Fits(c)
    ensures Fits(Looked(c, key, identity, now).0)
  {
    var m := Looked(c, key, identity, now).0.entries;
    if key in c.entries && c.entries[key].expiresAt <= now {
      SubmapSmaller(m, c.entries);
    } else if key in c.entries && c.entries[key].credentials == identity {
      TotalInsert(c.entries, key, m[key]);
      assert m.Keys == c.entries.Keys;
      assert |m| == |m.Keys| && |c.entries| == |c.entries.Keys|;
    }
  }

  lemma AddedDistinct(c: Cache, key: Key, credentials: nat, value: Text, expiresAt: int, now: int)
    requires Fits(c)
    ensures UsesDistinct(Added(c, key, credentials, value, expiresAt, now))
  {
  }

  lemma InsertedFits(c: Cache, key: Key, credentials: nat, value: Text, expiresAt: int, now: int, d: Cache)
    requires Fits(c) && Inserted(c, key, credentials, value, expiresAt, now, d)
    ensures Fits(d)
  {
    var m := Added(c, key, credentials, value, expiresAt, now);
    AddedDistinct(c, key, credentials, value, expiresAt, now);
    var t :| d.entries == Newer(m, t);
  }

  /** A stored token is retained exactly when it fits the byte budget alone; one that does not clears the cache. */
  lemma InsertSurvivesIff(c: Cache, key: Key, credentials: nat, value: Text, expiresAt: int, now: int, d: Cache)
    requires Fits(c) && Inserted(c, key, credentials, value, expiresAt, now, d)
    ensures key in d.entries <==> |key.base| + |key.scope| + |value| <= 2097152
    ensures key in d.entries ==> d.entries[key] == Entry(credentials, value, expiresAt, d.uses)
    ensures key !in d.entries ==> d.entries == map[]
  {
    NewestSurvivesIff(Added(c, key, credentials, value, expiresAt, now), d.entries, key);
    var t :| d.entries == Newer(Added(c, key, credentials, value, expiresAt, now), t);
  }

  /** The entries an insert of `key` at `now` finds live and used no earlier than `k`, which must all make room for it. */
  function Rivals(c: Cache, key: Key, now: int, k: Key): Entries
    requires k in c.entries
  {
    map j | j in c.entries && j != key && c.entries[j].expiresAt > now && c.entries[j].usedAt >= c.entries[k].usedAt ::
      c.entries[j]
  }

  /** The new token fits both budgets together with `k` and everything used since. */
  ghost predicate Room(c: Cache, key: Key, value: Text, now: int, k: Key)
    requires k in c.entries
  {
    var rivals := Rivals(c, key, now, k);
    |rivals| + 1 <= 512 && Total(rivals) + |key.base| + |key.scope| + |value| <= 2097152
  }

  /** An insert keeps another entry exactly when it has not expired and there is room for it, and then as it was. */
  lemma StoreKeepsIff(c: Cache, key: Key, credentials: nat, value: Text, expiresAt: int, now: int, d: Cache, k: Key)
    requires Fits(c) && Inserted(c, key, credentials, value, expiresAt, now, d) && k != key
    ensures k in d.entries <==> k in c.entries && c.entries[k].expiresAt > now && Room(c, key, value, now, k)
    ensures k in d.entries ==> d.entries[k] == c.entries[k]
  {
    hide LargestSuffix, Within, Newer, Room, Fits;
    var m := Added(c, key, credentials, value, expiresAt, now);
    if k in m {
      SuffixKeepsIff(m, d.entries, k);
      RoomIff(c, key, m[key], now, k);
    }
    SuffixIsPart(m, d.entries);
  }

  lemma SuffixIsPart(m: Entries, r: Entries)
    requires LargestSuffix(m, r)
    ensures Submap(r, m)
  {
  }

  /** Eviction keeps an entry exactly when the budgets hold it together with everything used since. */
  lemma SuffixKeepsIff(m: Entries, r: Entries, k: Key)
    requires LargestSuffix(m, r) && k in m
    ensures k in r <==> Within(Newer(m, m[k].usedAt - 1))
  {
    var suffix := Newer(m, m[k].usedAt - 1);
    assert k in suffix;
    var t :| r == Newer(m, t);
    if k in r {
      assert Submap(suffix, r);
      SubmapSmaller(suffix, r);
    }
  }

  lemma RoomIff(c: Cache, key: Key, e: Entry, now: int, k: Key)
    requires Fits(c) && k in c.entries && k != key && c.entries[k].expiresAt > now && e.usedAt == c.uses + 1
    ensures Within(Newer(Swept(c.entries, now)[key := e], c.entries[k].usedAt - 1)) <==> Room(c, key, e.value, now, k)
  {
    hide Fits, Newer, Rivals, Total;
    RivalsSuffix(c, key, e, now, k);
    TotalInsert(Rivals(c, key, now, k), key, e);
  }

  lemma RivalsSuffix(c: Cache, key: Key, e: Entry, now: int, k: Key)
    requires Fits(c) && k in c.entries && k != key && c.entries[k].expiresAt > now && e.usedAt == c.uses + 1
    ensures var rivals := Rivals(c, key, now, k);
      && key !in rivals && |rivals[key := e]| == |rivals| + 1
      && Newer(Swept(c.entries, now)[key := e], c.entries[k].usedAt - 1) == rivals[key := e]
  {
    var rivals := Rivals(c, key, now, k);
    assert rivals[key := e] - {key} == rivals;
  }

  /** A lookup answers the live token stored under the caller's identity, and drops an entry exactly when it has expired. */
  lemma LookupDropsIff(c: Cache, key: Key, identity: nat, now: int)
    ensures var (d, hit) := Looked(c, key, identity, now);
      && (forall k :: k in d.entries <==> k in c.entries && (k == key ==> c.entries[k].expiresAt > now))
      && (forall k :: k in d.entries && k != key ==> d.entries[k] == c.entries[k])
      && (key in d.entries ==> d.entries[key] == c.entries[key].(usedAt := d.entries[key].usedAt))
      && (key in c.entries && c.entries[key].expiresAt > now && c.entries[key].credentials == identity ==>
            hit == Some(c.entries[key].value) && d.entries[key].usedAt == d.uses == c.uses + 1)
      && (hit.Some? ==> key in c.entries && c.entries[key].expiresAt > now && c.entries[key].credentials == identity)
      && (hit.None? && key in d.entries ==> d.entries[key] == c.entries[key])
  {
  }

  const MAX_TOKEN_RESPONSE_BYTES: nat := 0x10_0000

  /** A token from a response within the client's cap survives its insert under any key of at most a mebibyte. */
  lemma CappedTokenSurvives(c: Cache, key: Key, credentials: nat, value: Text, expiresAt: int, now: int, d: Cache)
    requires Fits(c) && Inserted(c, key, credentials, value, expiresAt, now, d)
    requires |value| <= MAX_TOKEN_RESPONSE_BYTES && |key.base| + |key.scope| <= MAX_BYTES - MAX_TOKEN_RESPONSE_BYTES
    ensures key in d.entries && d.entries[key].value == value && d.entries[key].credentials == credentials
  {
    InsertSurvivesIff(c, key, credentials, value, expiresAt, now, d);
    var t :| d.entries == Newer(Added(c, key, credentials, value, expiresAt, now), t);
  }

  // ---------------------------------------------------------------------------------------------
  // The cache in place
  // ---------------------------------------------------------------------------------------------

  predicate Earlier(a: (nat, Key), b: (nat, Key)) {
    a.0 <= b.0
  }

  /** `order` lists every entry once, by use number. */
  ghost predicate Lists(order: seq<(nat, Key)>, m: Entries) {
    && (forall i :: 0 <= i < |order| ==> order[i].1 in m && order[i].0 == m[order[i].1].usedAt)
    && (forall k :: k in m ==> (m[k].usedAt, k) in order)
    && Distinct(order)
  }

  class TokenCache {
    var entries: Entries
    var bytes: nat
    var uses: nat

    ghost function Value(): Cache
      reads this
    {
      Cache(entries, uses)
    }

    ghost predicate Counted()
      reads this
    {
      bytes == Total(entries)
    }

    ghost predicate Valid()
      reads this
    {
      Counted() && Fits(Value())
    }

    constructor ()
      ensures Valid() && Value() == Cache(map[], 0)
    {
      entries, bytes, uses := map[], 0, 0;
    }

    method Get(key: Key, identity: nat, now: int) returns (hit: Option<Text>)
      requires Valid()
      modifies this
      ensures Valid() && (Value(), hit) == Looked(old(Value()), key, identity, now)
      ensures hit.Some? <==>
        key in old(entries) && old(entries)[key].expiresAt > now && old(entries)[key].credentials == identity
      ensures hit.Some? ==> hit.value == old(entries)[key].value
      ensures forall k :: k in entries <==> k in old(entries) && (k == key ==> old(entries)[k].expiresAt > now)
    {
      LookedFits(Value(), key, identity, now);
      if key in entries && entries[key].expiresAt <= now {
        Remove(key);
        return None;
      }
      uses := uses + 1;
      if key !in entries { return None; }
      if entries[key].credentials != identity { return None; }
      TotalInsert(entries, key, entries[key].(usedAt := uses));
      entries := entries[key := entries[key].(usedAt := uses)];
      hit := Some(entries[key].value);
    }

    method Insert(key: Key, credentials: nat, value: Text, expiresAt: int, now: int)
      requires Valid()
      modifies this
      ensures Valid() && Inserted(old(Value()), key, credentials, value, expiresAt, now, Value())
    {
      hide Within, Newer, LargestSuffix, Total, UsesDistinct, Fits;
      SweepExpired(now);
      uses := uses + 1;
      Put(key, Entry(credentials, value, expiresAt, uses));
      AddedDistinct(old(Value()), key, credentials, value, expiresAt, now);
      EvictToBudget();
      InsertedFits(old(Value()), key, credentials, value, expiresAt, now, Value());
    }

    method Put(key: Key, entry: Entry)
      requires Counted()
      modifies this`entries, this`bytes
      ensures Counted() && entries == old(entries)[key := entry]
    {
      TotalInsert(entries, key, entry);
      if key in entries { TotalRemove(entries, key); }
      bytes := bytes + Weight(key, entry.value);
      if key in entries {
        bytes := bytes - Weight(key, entries[key].value);
      }
      entries := entries[key := entry];
    }

    method Remove(key: Key)
      requires Counted()
      modifies this`entries, this`bytes
      ensures Counted() && entries == old(entries) - {key}
    {
      if key in entries {
        TotalRemove(entries, key);
        bytes := bytes - Weight(key, entries[key].value);
        entries := entries - {key};
      }
    }

    method SweepExpired(now: int)
      requires Counted()
      modifies this`entries, this`bytes
      ensures Counted() && entries == Swept(old(entries), now)
    {
      var expired := set k | k in entries && entries[k].expiresAt <= now;
      while expired != {}
        invariant Counted()
        invariant forall k :: k in expired ==> k in old(entries) && old(entries)[k].expiresAt <= now
        invariant forall k :: k in entries <==> k in old(entries) && (old(entries)[k].expiresAt > now || k in expired)
        invariant forall k :: k in entries ==> entries[k] == old(entries)[k]
        decreases |expired|
      {
        var key :| key in expired;
        Remove(key);
        expired := expired - {key};
      }
    }

    method WithinBudget() returns (within: bool)
      requires Counted()
      ensures within <==> Within(entries)
    {
      within := |entries| <= MAX_ENTRIES && bytes <= MAX_BYTES;
    }

    /** The order in which entries are reached; the map is walked in any order. */
    method Order() returns (order: seq<(nat, Key)>)
      ensures Lists(order, entries)
    {
      order := [];
      var rest := entries.Keys;
      while rest != {}
        invariant rest <= entries.Keys
        invariant forall i :: 0 <= i < |order| ==>
          order[i].1 in entries.Keys - rest && order[i].0 == entries[order[i].1].usedAt
        invariant forall k :: k in entries.Keys - rest ==> (entries[k].usedAt, k) in order
        invariant Distinct(order)
        decreases |rest|
      {
        var key :| key in rest;
        order := order + [(entries[key].usedAt, key)];
        rest := rest - {key};
      }
    }

    /** Drop the least recently served entries until both budgets hold. */
    method EvictToBudget()
      requires Counted() && UsesDistinct(entries)
      modifies this`entries, this`bytes
      ensures Counted() && LargestSuffix(old(entries), entries)
    {
      hide Within, Newer, LargestSuffix, Total, UsesDistinct;
      var within := WithinBudget();
      WholeSuffix(entries);
      if within { return; }
      var order := Order();
      order := SortedOrder(order, entries);
      ghost var t: int := -1;
      for i := 0 to |order|
        invariant Counted() && entries == Newer(old(entries), t)
        invariant forall j :: i <= j < |order| ==> order[j].0 > t
        invariant forall j :: 0 <= j < i ==> order[j].0 <= t
        invariant OverBelow(old(entries), t)
      {
        within := WithinBudget();
        if within {
          SuffixIsLargest(old(entries), t);
          return;
        }
        Remove(order[i].1);
        RemoveNext(old(entries), order, i, t);
        t := order[i].0;
      }
      AllEvicted(old(entries), order, t);
      SuffixIsLargest(old(entries), t);
    }
  }

  /** The sort: by use number, which no two entries share. */
  method SortedOrder(order: seq<(nat, Key)>, ghost m: Entries) returns (sorted: seq<(nat, Key)>)
    requires Lists(order, m) && UsesDistinct(m)
    ensures Lists(sorted, m)
    ensures forall i, j :: 0 <= i < j < |sorted| ==> sorted[i].0 < sorted[j].0
  {
    sorted := Sorting.Sort(order, Earlier);
    Sorting.SortSorted(order, Earlier);
    Sorting.SortMembers(order, Earlier);
    forall i | 0 <= i < |sorted| ensures sorted[i].1 in m && sorted[i].0 == m[sorted[i].1].usedAt {
      assert sorted[i] in sorted;
      assert sorted[i] in order;
    }
    forall i, j | 0 <= i < j < |sorted| ensures sorted[i].0 < sorted[j].0 {
      assert Earlier(sorted[i], sorted[j]);
      assert sorted[i] != sorted[j];
      assert sorted[i].1 != sorted[j].1;
    }
  }

  /** Every suffix longer than the one after `t` is over budget. */
  ghost predicate OverBelow(m: Entries, t: int) {
    forall u :: u < t ==> !Within(Newer(m, u))
  }

  lemma WholeSuffix(m: Entries)
    ensures Newer(m, -1) == m
    ensures !Within(m) ==> OverBelow(m, -1)
    ensures Within(m) ==> LargestSuffix(m, m)
  {
    assert forall u :: u < 0 ==> Newer(m, u) == m;
  }

  /** Removing the next entry in order is moving the threshold to its use number. */
  lemma RemoveNext(m: Entries, order: seq<(nat, Key)>, i: nat, t: int)
    requires Lists(order, m) && i < |order|
    requires forall a, b :: 0 <= a < b < |order| ==> order[a].0 < order[b].0
    requires forall j :: i <= j < |order| ==> order[j].0 > t
    requires forall j :: 0 <= j < i ==> order[j].0 <= t
    requires !Within(Newer(m, t))
    ensures Newer(m, t) - {order[i].1} == Newer(m, order[i].0)
    ensures OverBelow(m, order[i].0)
  {
    forall k | k in m && m[k].usedAt > t
      ensures k == order[i].1 || m[k].usedAt > order[i].0
    {
      var j :| 0 <= j < |order| && order[j] == (m[k].usedAt, k);
    }
    OverWhenLonger(m, t, order[i].0);
  }

  lemma OverWhenLonger(m: Entries, t: int, next: int)
    requires !Within(Newer(m, t))
    requires forall k :: k in m && m[k].usedAt > t ==> m[k].usedAt >= next
    ensures OverBelow(m, next)
  {
    forall u | u < next ensures !Within(Newer(m, u)) {
      assert Submap(Newer(m, t), Newer(m, u));
      SubmapSmaller(Newer(m, t), Newer(m, u));
    }
  }

  lemma SuffixIsLargest(m: Entries, t: int)
    requires Within(Newer(m, t))
    requires OverBelow(m, t)
    ensures LargestSuffix(m, Newer(m, t))
  {
  }

  lemma AllEvicted(m: Entries, order: seq<(nat, Key)>, t: int)
    requires Lists(order, m)
    requires forall j :: 0 <= j < |order| ==> order[j].0 <= t
    ensures Within(Newer(m, t))
  {
    forall k | k in m ensures m[k].usedAt <= t {
      var j :| 0 <= j < |order| && order[j] == (m[k].usedAt, k);
    }
    assert Newer(m, t) == map[];
  }

  // ---------------------------------------------------------------------------------------------
  // Whole runs, against the map that forgets nothing
  // ---------------------------------------------------------------------------------------------

  datatype Op =
    | Lookup(key: Key, identity: nat, now: int, hit: Option<Text>)
    | Store(key: Key, credentials: nat, value: Text, expiresAt: int, now: int)

  ghost predicate Next(c: Cache, op: Op, d: Cache) {
    match op
    case Lookup(key, identity, now, hit) => (d, hit) == Looked(c, key, identity, now)
    case Store(key, credentials, value, expiresAt, now) => Inserted(c, key, credentials, value, expiresAt, now, d)
  }

  ghost predicate StepAt(ops: seq<Op>, states: seq<Cache>, i: nat)
    requires i < |ops| && |states| == |ops| + 1
  {
    Next(states[i], ops[i], states[i + 1])
  }

  ghost predicate Run(ops: seq<Op>, states: seq<Cache>) {
    && |states| == |ops| + 1
    && states[0] == Cache(map[], 0)
    && forall i :: 0 <= i < |ops| ==> StepAt(ops, states, i)
  }

  /** The last write of a key: what an unbounded cache would hold. */
  function LastWrite(ops: seq<Op>, key: Key): Option<Op> {
    if ops == [] then None
    else if ops[|ops| - 1].Store? && ops[|ops| - 1].key == key then Some(ops[|ops| - 1])
    else LastWrite(ops[..|ops| - 1], key)
  }

  predicate Touches(op: Op, key: Key) {
    op.key == key && (op.Store? || op.hit.Some?)
  }

  /** The last operation that stored or served a key. */
  function LastTouch(ops: seq<Op>, key: Key): (i: int)
    ensures -1 <= i < |ops|
  {
    if ops == [] then -1
    else if Touches(ops[|ops| - 1], key) then |ops| - 1
    else LastTouch(ops[..|ops| - 1], key)
  }

  /** A retained entry is the last write of its key, stamped by its last use. */
  ghost predicate Tracks(ops: seq<Op>, states: seq<Cache>, n: nat, key: Key)
    requires n <= |ops| && |states| == |ops| + 1 && key in states[n].entries
  {
    var e := states[n].entries[key];
    var write := LastWrite(ops[..n], key);
    && write.Some? && write.value.Store?
    && e.credentials == write.value.credentials
    && e.value == write.value.value
    && e.expiresAt == write.value.expiresAt
    && 0 <= LastTouch(ops[..n], key)
    && e.usedAt == states[LastTouch(ops[..n], key) + 1].uses
  }

  lemma NextFits(c: Cache, op: Op, d: Cache)
    requires Fits(c) && Next(c, op, d)
    ensures Fits(d)
  {
    hide Fits, Looked, Inserted;
    match op
    case Lookup(key, identity, now, hit) => LookedFits(c, key, identity, now);
    case Store(key, credentials, value, expiresAt, now) => InsertedFits(c, key, credentials, value, expiresAt, now, d);
  }

  lemma EmptyFits()
    ensures Fits(Cache(map[], 0))
  {
  }

  /** Both budgets hold after every operation of every run. */
  lemma {:induction false} RunFits(ops: seq<Op>, states: seq<Cache>, n: nat)
    requires Run(ops, states) && n <= |ops|
    ensures Fits(states[n])
  {
    hide Fits, Next;
    EmptyFits();
    if n > 0 {
      RunFits(ops, states, n - 1);
      assert StepAt(ops, states, n - 1);
      NextFits(states[n - 1], ops[n - 1], states[n]);
    }
  }

  lemma {:induction false} UsesGrow(ops: seq<Op>, states: seq<Cache>, a: nat, b: nat)
    requires Run(ops, states) && a <= b <= |ops|
    ensures states[a].uses <= states[b].uses
  {
    if a < b {
      UsesGrow(ops, states, a, b - 1);
      assert StepAt(ops, states, b - 1);
    }
  }

  lemma {:induction false} RunTracks(ops: seq<Op>, states: seq<Cache>, n: nat, key: Key)
    requires Run(ops, states) && n <= |ops| && key in states[n].entries
    ensures Tracks(ops, states, n, key)
  {
    assert n > 0;
    assert StepAt(ops, states, n - 1);
    assert ops[..n][..n - 1] == ops[..n - 1];
    assert ops[..n][n - 1] == ops[n - 1];
    if ops[n - 1].Store? {
      var op := ops[n - 1];
      var m := Added(states[n - 1], op.key, op.credentials, op.value, op.expiresAt, op.now);
      var t :| states[n].entries == Newer(m, t);
      assert states[n].entries[key] == m[key];
    }
    if !(ops[n - 1].Store? && ops[n - 1].key == key) {
      RunTracks(ops, states, n - 1, key);
    }
  }

  /** Every hit is the latest write of that key, for that identity, not yet expired. */
  lemma HitIsLatestWrite(ops: seq<Op>, states: seq<Cache>, i: nat)
    requires Run(ops, states) && i < |ops|
    requires ops[i].Lookup? && ops[i].hit.Some?
    ensures LastWrite(ops[..i], ops[i].key).Some?
    ensures var write := LastWrite(ops[..i], ops[i].key).value;
      && write.Store?
      && write.credentials == ops[i].identity
      && write.value == ops[i].hit.value
      && write.expiresAt > ops[i].now
  {
    assert StepAt(ops, states, i);
    RunTracks(ops, states, i, ops[i].key);
  }

  /** The operation leaves the entry of `key` with deadline `expiresAt` in the cache. */
  ghost predicate Spares(c: Cache, op: Op, key: Key, expiresAt: int) {
    match op
    case Lookup(k, _, now, _) => k == key ==> now < expiresAt
    case Store(k, _, value, _, now) => now < expiresAt && (key in c.entries ==> Room(c, k, value, now, key))
  }

  ghost predicate SparesAt(ops: seq<Op>, states: seq<Cache>, m: nat, key: Key, expiresAt: int)
    requires m < |ops| && |states| == |ops| + 1
  {
    Spares(states[m], ops[m], key, expiresAt)
  }

  lemma NextKeepsIff(c: Cache, op: Op, d: Cache, key: Key)
    requires Fits(c) && Next(c, op, d) && !(op.Store? && op.key == key)
    ensures key in d.entries <==> key in c.entries && Spares(c, op, key, c.entries[key].expiresAt)
    ensures key in d.entries ==> d.entries[key] == c.entries[key].(usedAt := d.entries[key].usedAt)
  {
    hide Fits, Looked, Inserted, Room;
    match op
    case Lookup(k, identity, now, hit) => LookupDropsIff(c, k, identity, now);
    case Store(k, credentials, value, expiresAt, now) =>
      StoreKeepsIff(c, k, credentials, value, expiresAt, now, d, key);
  }

  /** A key is written at `w` and not again before `n`. */
  ghost predicate WrittenAt(ops: seq<Op>, w: nat, n: nat, key: Key) {
    && w < n <= |ops| && ops[w].Store? && ops[w].key == key
    && forall m :: w < m < n ==> !(ops[m].Store? && ops[m].key == key)
  }

  ghost predicate FitsAlone(op: Op)
    requires op.Store?
  {
    |op.key.base| + |op.key.scope| + |op.value| <= 2097152
  }

  /** What was written is still there exactly when it fits alone and every operation since spared it. */
  lemma {:induction false} KeptIff(ops: seq<Op>, states: seq<Cache>, w: nat, n: nat, key: Key)
    requires Run(ops, states) && WrittenAt(ops, w, n, key)
    ensures key in states[n].entries <==>
      FitsAlone(ops[w]) && forall m :: w < m < n ==> SparesAt(ops, states, m, key, ops[w].expiresAt)
    ensures key in states[n].entries ==>
      var e := states[n].entries[key];
      e.credentials == ops[w].credentials && e.value == ops[w].value && e.expiresAt == ops[w].expiresAt
    decreases n
  {
    hide Fits, Next, Spares;
    RunFits(ops, states, n - 1);
    assert StepAt(ops, states, n - 1);
    if n == w + 1 {
      WriteKeptIff(states[w], ops[w], states[w + 1]);
    } else {
      KeptIff(ops, states, w, n - 1, key);
      NextKeepsIff(states[n - 1], ops[n - 1], states[n], key);
      assert key in states[n - 1].entries ==>
        (SparesAt(ops, states, n - 1, key, ops[w].expiresAt) <==> key in states[n].entries);
    }
  }

  lemma WriteKeptIff(c: Cache, op: Op, d: Cache)
    requires Fits(c) && op.Store? && Next(c, op, d)
    ensures op.key in d.entries <==> FitsAlone(op)
    ensures op.key in d.entries ==> d.entries[op.key] == Entry(op.credentials, op.value, op.expiresAt, d.uses)
  {
    hide Fits, Inserted;
    InsertSurvivesIff(c, op.key, op.credentials, op.value, op.expiresAt, op.now, d);
  }

  /**
    A lookup answers the last token written for its key exactly when the identity is the writer's, the deadline
    is ahead, the token fits the byte budget alone and nothing since dropped it: no lookup or insert found it
    expired and no insert needed its room.  Otherwise it answers nothing.
  */
  lemma HitIff(ops: seq<Op>, states: seq<Cache>, w: nat, i: nat)
    requires Run(ops, states) && i < |ops| && ops[i].Lookup? && WrittenAt(ops, w, i, ops[i].key)
    ensures var kept := forall m :: w < m < i ==> SparesAt(ops, states, m, ops[i].key, ops[w].expiresAt);
      if ops[w].credentials == ops[i].identity && ops[i].now < ops[w].expiresAt && FitsAlone(ops[w]) && kept
      then ops[i].hit == Some(ops[w].value)
      else ops[i].hit == None
  {
    hide Spares, Looked, FitsAlone;
    KeptIff(ops, states, w, i, ops[i].key);
    assert StepAt(ops, states, i);
    LookupDropsIff(states[i], ops[i].key, ops[i].identity, ops[i].now);
  }

  /** What a store evicts was stored or served before everything it keeps. */
  lemma EvictionByRecency(ops: seq<Op>, states: seq<Cache>, i: nat, victim: Key, kept: Key)
    requires Run(ops, states) && i < |ops| && ops[i].Store?
    requires kept in states[i + 1].entries && victim !in states[i + 1].entries
    requires victim in Added(states[i], ops[i].key, ops[i].credentials, ops[i].value, ops[i].expiresAt, ops[i].now)
    ensures LastTouch(ops[..i + 1], victim) < LastTouch(ops[..i + 1], kept)
  {
    hide Fits, LargestSuffix, UsesDistinct, Added, LastTouch;
    var op := ops[i];
    var m := Added(states[i], op.key, op.credentials, op.value, op.expiresAt, op.now);
    assert StepAt(ops, states, i);
    RunFits(ops, states, i);
    AddedDistinct(states[i], op.key, op.credentials, op.value, op.expiresAt, op.now);
    EvictedAreOldest(m, states[i + 1].entries, victim);
    AddedStamp(ops, states, i, victim);
    AddedStamp(ops, states, i, kept);
    var a, b := LastTouch(ops[..i + 1], victim), LastTouch(ops[..i + 1], kept);
    if b <= a {
      UsesGrow(ops, states, b + 1, a + 1);
    }
  }

  lemma AddedStamp(ops: seq<Op>, states: seq<Cache>, i: nat, key: Key)
    requires Run(ops, states) && i < |ops| && ops[i].Store?
    requires key in Added(states[i], ops[i].key, ops[i].credentials, ops[i].value, ops[i].expiresAt, ops[i].now)
    ensures 0 <= LastTouch(ops[..i + 1], key)
    ensures Added(states[i], ops[i].key, ops[i].credentials, ops[i].value, ops[i].expiresAt, ops[i].now)[key].usedAt
      == states[LastTouch(ops[..i + 1], key) + 1].uses
  {
    assert StepAt(ops, states, i);
    assert ops[..i + 1][..i] == ops[..i];
    assert ops[..i + 1][i] == ops[i];
    if key != ops[i].key {
      RunTracks(ops, states, i, key);
    }
  }

  // ---------------------------------------------------------------------------------------------
  // How long a token is kept
  // ---------------------------------------------------------------------------------------------

  const I64_MAX: int := 0x7fff_ffff_ffff_ffff
  const I64_MIN: int := -0x8000_0000_0000_0000

  datatype DeclaredLifetime = Absent | Seconds(seconds: int) | Malformed

  function SaturatingSub(a: int, b: int): int {
    if a - b > I64_MAX then I64_MAX else if a - b < I64_MIN then I64_MIN else a - b
  }

  function Spent(issuedAt: Option<int>, now: int): int {
    match issuedAt
    case None => 0
    case Some(issued) => if SaturatingSub(now, issued) > 0 then SaturatingSub(now, issued) else 0
  }

  function ExpiresAt(lifetime: DeclaredLifetime, issuedAt: Option<int>, now: int): Option<int> {
    if lifetime.Malformed? || (lifetime.Seconds? && lifetime.seconds <= 0) then None else
      var remaining := Honoured(lifetime) - Spent(issuedAt, now) - EXPIRY_SKEW_SECS;
      if remaining > 0 then Some(now + remaining) else None
  }

  /** The lifetime the realm declared, or the one a silent realm means. */
  function Declared(lifetime: DeclaredLifetime): int
    requires !lifetime.Malformed?
  {
    if lifetime.Absent? then DEFAULT_LIFETIME_SECS else lifetime.seconds
  }

  /** A retained token always has a future deadline, at least the skew ahead of the realm's and of the cap. */
  lemma DeadlineIsSafe(lifetime: DeclaredLifetime, issuedAt: Option<int>, now: int)
    requires ExpiresAt(lifetime, issuedAt, now).Some?
    requires I64_MIN <= now <= I64_MAX && (issuedAt.Some? ==> I64_MIN <= issuedAt.value <= I64_MAX)
    ensures !lifetime.Malformed?
    ensures var deadline := ExpiresAt(lifetime, issuedAt, now).value;
      && now < deadline <= now + MAX_LIFETIME_SECS - EXPIRY_SKEW_SECS
      && deadline <= now + Declared(lifetime) - EXPIRY_SKEW_SECS
      && (issuedAt.Some? && issuedAt.value <= now ==>
        deadline <= issuedAt.value + Declared(lifetime) - EXPIRY_SKEW_SECS)
  {
  }

  function Honoured(lifetime: DeclaredLifetime): int
    requires !lifetime.Malformed?
  {
    if Declared(lifetime) < MAX_LIFETIME_SECS then Declared(lifetime) else MAX_LIFETIME_SECS
  }

  predicate FitsI64(n: int) {
    I64_MIN <= n <= I64_MAX
  }

  /**
    The 64-bit subtraction is exact for every lifetime of at least four seconds, and for a shorter one unless
    the realm claims to have spent nearly all of time; the sum is exact until the last hour of time.
  */
  lemma ArithmeticFitsIff(lifetime: DeclaredLifetime, issuedAt: Option<int>, now: int)
    requires !lifetime.Malformed? && Declared(lifetime) > 0 && FitsI64(now)
    requires issuedAt.Some? ==> FitsI64(issuedAt.value)
    ensures var remaining := Honoured(lifetime) - Spent(issuedAt, now) - EXPIRY_SKEW_SECS;
      && FitsI64(Honoured(lifetime) - Spent(issuedAt, now))
      && (FitsI64(remaining) <==> Declared(lifetime) >= 4 || Spent(issuedAt, now) <= I64_MAX + Declared(lifetime) - 4)
      && (remaining > 0 && now <= I64_MAX - MAX_LIFETIME_SECS ==> FitsI64(now + remaining))
  {
  }

  /** The times an RFC 3339 string can denote: years 0 to 9999. */
  const EARLIEST_ISSUE: int := -62167219200
  const LATEST_ISSUE: int := 253402300799

  /** For every issue time a token response can state, and every time of a clock not about to end, all is exact. */
  lemma ReceivedTimesFit(lifetime: DeclaredLifetime, issuedAt: Option<int>, now: int)
    requires !lifetime.Malformed? && Declared(lifetime) > 0
    requires issuedAt.Some? ==> EARLIEST_ISSUE <= issuedAt.value <= LATEST_ISSUE
    requires 0 <= now <= I64_MAX + EARLIEST_ISSUE - EXPIRY_SKEW_SECS
    ensures issuedAt.Some? ==> FitsI64(now - issuedAt.value) && SaturatingSub(now, issuedAt.value) == now - issuedAt.value
    ensures var remaining := Honoured(lifetime) - Spent(issuedAt, now) - EXPIRY_SKEW_SECS;
      && FitsI64(Honoured(lifetime) - Spent(issuedAt, now)) && FitsI64(remaining)
      && (remaining > 0 ==> FitsI64(now + remaining))
  {
  }

  /**
    The deadline is five seconds short of the declared lifetime, or of an hour if that is less, counted from the
    issue time, or from now for a token said to be issued later or at no stated time.  A silent realm declares a
    minute.  The token is retained exactly when that deadline is still ahead.
  */
  lemma DeadlineIs(lifetime: DeclaredLifetime, issuedAt: Option<int>, now: int)
    requires FitsI64(now) && (issuedAt.Some? ==> FitsI64(issuedAt.value))
    ensures lifetime.Malformed? || (lifetime.Seconds? && lifetime.seconds <= 0) ==>
      ExpiresAt(lifetime, issuedAt, now) == None
    ensures lifetime.Absent? || (lifetime.Seconds? && lifetime.seconds > 0) ==>
      var start := if issuedAt.Some? && issuedAt.value < now then issuedAt.value else now;
      var span := if lifetime.Absent? then 60 else if lifetime.seconds < 3600 then lifetime.seconds else 3600;
      var deadline := start + span - 5;
      ExpiresAt(lifetime, issuedAt, now) == if deadline > now then Some(deadline) else None
  {
  }

  /** A token with its whole lifetime ahead is retained exactly when that lifetime outlasts the skew. */
  lemma RetainedIff(lifetime: DeclaredLifetime, now: int)
    ensures ExpiresAt(lifetime, None, now).Some? <==>
      lifetime.Absent? || (lifetime.Seconds? && lifetime.seconds > EXPIRY_SKEW_SECS)
  {
  }
}
