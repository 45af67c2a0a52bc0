/**
  Cursor pages over soft-deleted records: filter, sort by cursor, cut a page, and resume after its last row.

  Strings are byte sequences, ordered as the source orders them.  Times are 64-bit seconds, and the key's
  subtraction wraps.
*/
module TrashPages {
  import opened Common
  import opened Utf8
  import opened Sorting

  const MAX_LIMIT: nat := 100
  const MAX_REPOSITORY_BYTES: nat := 512
  const MAX_CURSOR_BYTES: nat := 1024
  const TRASH_GRACE_SECS: int := 30 * 24 * 60 * 60
  const I64_MAX: int := 9223372036854775807
  const I64_MIN: int := -9223372036854775808
  const TWO_TO_THE_64: int := 18446744073709551616
  const SEPARATOR: byte := 0x1f
  const MINUS: byte := 0x2d

  type Text = seq<byte>

  type Seconds = n: int | I64_MIN <= n <= I64_MAX

  // ---------------------------------------------------------------------------------------------
  // Byte order
  // ---------------------------------------------------------------------------------------------

  predicate Leq(a: Text, b: Text) {
    a == [] || (b != [] && (a[0] < b[0] || (a[0] == b[0] && Leq(a[1..], b[1..]))))
  }

  lemma {:induction false} LeqTotal(a: Text, b: Text)
    ensures Leq(a, b) || Leq(b, a)
    ensures Leq(a, b) && Leq(b, a) ==> a == b
    ensures Leq(a, a)
  {
    if a != [] && b != [] && a[0] == b[0] {
      LeqTotal(a[1..], b[1..]);
      assert a == [a[0]] + a[1..] && b == [b[0]] + b[1..];
    }
    if a != [] { LeqTotal(a[1..], []); }
  }

  lemma {:induction false} LeqTransitive(a: Text, b: Text, c: Text)
    requires Leq(a, b) && Leq(b, c)
    ensures Leq(a, c)
  {
    if a != [] && a[0] == b[0] == c[0] { LeqTransitive(a[1..], b[1..], c[1..]); }
  }

  // ---------------------------------------------------------------------------------------------
  // Records
  // ---------------------------------------------------------------------------------------------

  datatype TrashState = Restorable | Expired

  datatype Record = Record(
    ecosystem: Text, repository: Text, resource: Text, artifact: Option<Text>, digest: Option<Text>,
    deletedAt: Seconds, retained: bool)

  function Deadline(r: Record): int {
    if r.deletedAt + TRASH_GRACE_SECS > I64_MAX then I64_MAX else r.deletedAt + TRASH_GRACE_SECS
  }

  predicate IsRestorable(r: Record, now: int) {
    r.retained && now < Deadline(r)
  }

  function StateOf(r: Record, now: int): TrashState {
    if IsRestorable(r, now) then Restorable else Expired
  }

  function Pow10(w: nat): nat {
    if w == 0 then 1 else 10 * Pow10(w - 1)
  }

  /** The last `width` decimal digits of `n`. */
  function Digits(n: nat, width: nat): (d: Text)
    ensures |d| == width
  {
    if width == 0 then [] else Digits(n / 10, width - 1) + [0x30 + n % 10]
  }

  /** The key a deletion time is sorted by: the time left to the end of time, wrapped to 64 bits. */
  function SortKey(deletedAt: Seconds): int {
    if deletedAt >= 0 then I64_MAX - deletedAt else I64_MAX - deletedAt - TWO_TO_THE_64
  }

  /** A number zero-padded to nineteen characters, its sign included. */
  function Padded(n: int): Text {
    if n >= 0 then Digits(n, 19)
    else [MINUS] + Digits(-n, if -n < Pow10(18) then 18 else 19)
  }

  function OrEmpty(t: Option<Text>): Text {
    if t.Some? then t.value else []
  }

  /** The identity after the time: its fields, each after a separator. */
  function Identity(r: Record): Text {
    [SEPARATOR] + (r.ecosystem + ([SEPARATOR] + (r.repository + ([SEPARATOR] + (r.resource
      + ([SEPARATOR] + (OrEmpty(r.artifact) + ([SEPARATOR] + OrEmpty(r.digest)))))))))
  }

  function Cursor(r: Record): Text {
    Padded(SortKey(r.deletedAt)) + Identity(r)
  }

  // ---------------------------------------------------------------------------------------------
  // Newest first
  // ---------------------------------------------------------------------------------------------

  /** `a` and `b` differ, and `a` has the smaller byte where they first do. */
  ghost predicate Smaller(a: Text, b: Text) {
    |a| == |b| && exists i :: 0 <= i < |a| && a[..i] == b[..i] && a[i] < b[i]
  }

  lemma {:induction false} DigitsOrdered(m: nat, n: nat, width: nat)
    requires m < n < Pow10(width)
    ensures Smaller(Digits(m, width), Digits(n, width))
  {
    var a, b := Digits(m, width), Digits(n, width);
    if m / 10 == n / 10 {
      var i := width - 1;
      assert a[..i] == Digits(m / 10, i) == b[..i];
      assert a[i] < b[i];
    } else {
      assert n / 10 < Pow10(width - 1);
      DigitsOrdered(m / 10, n / 10, width - 1);
      var c, d := Digits(m / 10, width - 1), Digits(n / 10, width - 1);
      var i :| 0 <= i < |c| && c[..i] == d[..i] && c[i] < d[i];
      assert a[..i] == c[..i] && b[..i] == d[..i] && a[i] == c[i] && b[i] == d[i];
    }
  }

  lemma {:induction false} SmallerFirst(a: Text, b: Text, x: Text, y: Text)
    requires Smaller(a, b)
    ensures Leq(a + x, b + y) && a + x != b + y
  {
    var i :| 0 <= i < |a| && a[..i] == b[..i] && a[i] < b[i];
    assert (a + x)[i] == a[i] && (b + y)[i] == b[i];
    if i > 0 {
      assert a[0] == a[..i][0] == b[..i][0] == b[0];
      var c, d := a[1..], b[1..];
      assert c[..i - 1] == a[..i][1..] && d[..i - 1] == b[..i][1..];
      assert c[i - 1] == a[i] && d[i - 1] == b[i];
      assert Smaller(c, d);
      SmallerFirst(c, d, x, y);
      assert (a + x)[1..] == c + x && (b + y)[1..] == d + y;
    }
  }

  lemma Powers()
    ensures Pow10(18) == 1000000000000000000
    ensures I64_MAX + 1 < Pow10(19)
  {
    assert Pow10(4) == 10000;
    assert Pow10(8) == 100000000;
    assert Pow10(12) == 1000000000000;
    assert Pow10(16) == 10000000000000000;
    assert Pow10(19) == 10000000000000000000;
  }

  /** A record deleted later has the smaller cursor, so byte order is newest first. */
  lemma NewestFirst(r: Record, s: Record)
    requires r.deletedAt > s.deletedAt >= 0
    ensures Leq(Cursor(r), Cursor(s)) && Cursor(r) != Cursor(s)
  {
    Powers();
    hide Pow10, Digits, Identity, Leq, Smaller;
    DigitsOrdered(I64_MAX - r.deletedAt, I64_MAX - s.deletedAt, 19);
    SmallerFirst(Digits(I64_MAX - r.deletedAt, 19), Digits(I64_MAX - s.deletedAt, 19), Identity(r), Identity(s));
  }

  /** The server's clock: seconds since 1970, zero before that, and never past the last second of time. */
  function SystemNow(sinceEpoch: Option<nat>): Seconds {
    if sinceEpoch.None? then 0 else if sinceEpoch.value > I64_MAX then I64_MAX else sinceEpoch.value
  }

  /** Whatever the clock read at two deletions, the listing has the later stamp first. */
  lemma StampedNewestFirst(r: Record, s: Record, a: Option<nat>, b: Option<nat>)
    requires r.deletedAt == SystemNow(a) && s.deletedAt == SystemNow(b) && r.deletedAt > s.deletedAt
    ensures Leq(Cursor(r), Cursor(s)) && Cursor(r) != Cursor(s)
  {
    NewestFirst(r, s);
  }

  /** The digits a negative time's key shows. */
  function Magnitude(deletedAt: Seconds): nat
    requires deletedAt < 0
  {
    I64_MAX + 2 + deletedAt
  }

  /** A minus sign comes before any digit. */
  lemma MinusFirst(r: Record, s: Record)
    requires r.deletedAt >= 0 > s.deletedAt
    ensures Leq(Cursor(s), Cursor(r)) && Cursor(r) != Cursor(s)
  {
    hide Pow10;
    DigitsInRange(SortKey(r.deletedAt), 19);
    assert Cursor(s)[0] == MINUS && Cursor(r)[0] == Padded(SortKey(r.deletedAt))[0] >= 0x30;
  }

  lemma {:induction false} DigitsInRange(n: nat, width: nat)
    ensures forall i :: 0 <= i < width ==> 0x30 <= Digits(n, width)[i] <= 0x39
  {
    if width > 0 { DigitsInRange(n / 10, width - 1); }
  }

  /** Keys of negative times after the sign: shown larger, the later the time. */
  lemma NegativeKeys(r: Record)
    requires r.deletedAt < 0
    ensures var m := Magnitude(r.deletedAt);
      0 < m <= I64_MAX + 1 && Padded(SortKey(r.deletedAt)) == [MINUS] + Digits(m, if m < Pow10(18) then 18 else 19)
  {
    hide Pow10;
  }

  lemma SignedFirst(a: Text, b: Text, x: Text, y: Text)
    requires Smaller(a, b)
    ensures Leq([MINUS] + a + x, [MINUS] + b + y) && [MINUS] + a + x != [MINUS] + b + y
  {
    SmallerFirst(a, b, x, y);
    assert ([MINUS] + a + x)[1..] == a + x && ([MINUS] + b + y)[1..] == b + y;
  }

  /** Between two negative times shown with as many digits, the earlier one comes first. */
  lemma SameWidth(r: Record, s: Record, width: nat)
    requires s.deletedAt < r.deletedAt < 0
    requires Magnitude(r.deletedAt) < Pow10(width)
    requires Padded(SortKey(r.deletedAt)) == [MINUS] + Digits(Magnitude(r.deletedAt), width)
    requires Padded(SortKey(s.deletedAt)) == [MINUS] + Digits(Magnitude(s.deletedAt), width)
    ensures Leq(Cursor(s), Cursor(r)) && Cursor(r) != Cursor(s)
  {
    hide Pow10, Digits, Padded, Identity;
    var a, b := Magnitude(s.deletedAt), Magnitude(r.deletedAt);
    DigitsOrdered(a, b, width);
    SignedFirst(Digits(a, width), Digits(b, width), Identity(s), Identity(r));
  }

  /** Between keys of nineteen and eighteen digits, the first eighteen decide, and then the shorter key. */
  lemma OtherWidth(r: Record, s: Record)
    requires s.deletedAt < r.deletedAt < 0
    requires Magnitude(s.deletedAt) < Pow10(18) <= Magnitude(r.deletedAt) < Pow10(19)
    ensures Cursor(r) != Cursor(s)
    ensures Leq(Cursor(r), Cursor(s)) <==> Magnitude(r.deletedAt) / 10 < Magnitude(s.deletedAt)
  {
    var a, b := Magnitude(s.deletedAt), Magnitude(r.deletedAt);
    var last: Text := [0x30 + b % 10];
    NegativeKeys(r);
    NegativeKeys(s);
    assert b / 10 < Pow10(18);
    hide Pow10;
    assert Digits(b, 19) == Digits(b / 10, 18) + last;
    assert Cursor(r) == [MINUS] + Digits(b / 10, 18) + (last + Identity(r));
    assert Cursor(s) == [MINUS] + Digits(a, 18) + Identity(s);
    hide Digits;
    LeqTotal(Cursor(r), Cursor(s));
    if b / 10 < a {
      DigitsOrdered(b / 10, a, 18);
      SignedFirst(Digits(b / 10, 18), Digits(a, 18), last + Identity(r), Identity(s));
    } else if a < b / 10 {
      DigitsOrdered(a, b / 10, 18);
      SignedFirst(Digits(a, 18), Digits(b / 10, 18), Identity(s), last + Identity(r));
    } else {
      SeparatorFirst([MINUS] + Digits(a, 18), last + Identity(r), Identity(s));
    }
  }

  lemma {:induction false} SeparatorFirst(front: Text, x: Text, y: Text)
    requires x != [] && y != [] && y[0] < x[0]
    ensures Leq(front + y, front + x) && front + y != front + x
  {
    if front == [] {
      assert front + y == y && front + x == x;
    } else {
      SeparatorFirst(front[1..], x, y);
      assert (front + y)[1..] == front[1..] + y && (front + x)[1..] == front[1..] + x;
    }
  }

  /**
    What the key would do with any 64-bit time.  Byte order is newest first exactly when the earlier deletion
    is not before 1970, or both are and their keys differ in width the right way: the wrapped subtraction
    turns the order of negative times around.
  */
  lemma NewestFirstIff(r: Record, s: Record)
    requires r.deletedAt > s.deletedAt
    ensures Leq(Cursor(r), Cursor(s)) <==>
      || s.deletedAt >= 0
      || (r.deletedAt < 0
          && Magnitude(s.deletedAt) < Pow10(18) <= Magnitude(r.deletedAt)
          && Magnitude(r.deletedAt) / 10 < Magnitude(s.deletedAt))
    ensures Cursor(r) != Cursor(s)
  {
    LeqTotal(Cursor(r), Cursor(s));
    Powers();
    hide Cursor, Pow10, Leq;
    if s.deletedAt >= 0 {
      NewestFirst(r, s);
    } else if r.deletedAt >= 0 {
      MinusFirst(r, s);
    } else {
      NegativeKeys(r);
      NegativeKeys(s);
      if Magnitude(s.deletedAt) < Pow10(18) <= Magnitude(r.deletedAt) {
        OtherWidth(r, s);
      } else if Magnitude(s.deletedAt) < Pow10(18) {
        SameWidth(r, s, 18);
      } else {
        SameWidth(r, s, 19);
      }
    }
  }

  // ---------------------------------------------------------------------------------------------
  // When two records share a cursor
  // ---------------------------------------------------------------------------------------------

  ghost predicate Plain(t: Text) {
    forall i :: 0 <= i < |t| ==> t[i] != SEPARATOR
  }

  ghost predicate PlainRecord(r: Record) {
    Plain(r.ecosystem) && Plain(r.repository) && Plain(r.resource) && Plain(OrEmpty(r.artifact)) && Plain(OrEmpty(r.digest))
  }

  lemma SplitField(a: Text, b: Text, x: Text, y: Text)
    requires Plain(a) && Plain(b) && a + ([SEPARATOR] + x) == b + ([SEPARATOR] + y)
    ensures a == b && x == y
  {
    var s, t := a + ([SEPARATOR] + x), b + ([SEPARATOR] + y);
    assert s[|a|] == SEPARATOR && t[|b|] == SEPARATOR;
    assert forall i :: 0 <= i < |a| ==> s[i] == a[i];
    assert forall i :: 0 <= i < |b| ==> t[i] == b[i];
    assert |a| == |b|;
    assert a == s[..|a|] && b == t[..|b|];
    assert x == s[|a| + 1..] && y == t[|b| + 1..];
  }

  /** Without separator bytes in its fields, a cursor identifies time and identity, an absent field being empty. */
  lemma SameCursorIff(r: Record, s: Record)
    requires PlainRecord(r) && PlainRecord(s)
    ensures Cursor(r) == Cursor(s) <==>
      && r.deletedAt == s.deletedAt && r.ecosystem == s.ecosystem && r.repository == s.repository
      && r.resource == s.resource && OrEmpty(r.artifact) == OrEmpty(s.artifact) && OrEmpty(r.digest) == OrEmpty(s.digest)
  {
    if Cursor(r) == Cursor(s) {
      if r.deletedAt > s.deletedAt { NewestFirstIff(r, s); }
      if s.deletedAt > r.deletedAt { NewestFirstIff(s, r); }
      var i, j := Identity(r), Identity(s);
      hide Padded, SortKey;
      var n := |Padded(SortKey(r.deletedAt))|;
      assert i == Cursor(r)[n..] && j == Cursor(s)[n..];
      SplitField([], [], i[1..], j[1..]);
      var d, e := [SEPARATOR] + OrEmpty(r.digest), [SEPARATOR] + OrEmpty(s.digest);
      var a, b := [SEPARATOR] + (OrEmpty(r.artifact) + d), [SEPARATOR] + (OrEmpty(s.artifact) + e);
      var p, q := [SEPARATOR] + (r.resource + a), [SEPARATOR] + (s.resource + b);
      SplitField(r.ecosystem, s.ecosystem, r.repository + p, s.repository + q);
      SplitField(r.repository, s.repository, r.resource + a, s.resource + b);
      SplitField(r.resource, s.resource, OrEmpty(r.artifact) + d, OrEmpty(s.artifact) + e);
      SplitField(OrEmpty(r.artifact), OrEmpty(s.artifact), OrEmpty(r.digest), OrEmpty(s.digest));
    }
  }

  // ---------------------------------------------------------------------------------------------
  // One page
  // ---------------------------------------------------------------------------------------------

  datatype Query = Query(
    repository: Option<Text>, ecosystem: Option<Text>, state: Option<TrashState>, deadlineBefore: Option<int>,
    cursor: Option<Text>, limit: nat)

  datatype QueryError = InvalidLimit | InvalidCursor | RepositoryTooLong

  function Validate(q: Query): Result<(), QueryError> {
    if !(1 <= q.limit <= MAX_LIMIT) then Err(InvalidLimit)
    else if q.cursor.Some? && (q.cursor.value == [] || |q.cursor.value| > MAX_CURSOR_BYTES) then Err(InvalidCursor)
    else if q.repository.Some? && |q.repository.value| > MAX_REPOSITORY_BYTES then Err(RepositoryTooLong)
    else Ok(())
  }

  predicate Matches(q: Query, r: Record, now: int) {
    && (q.repository.Some? ==> r.repository == q.repository.value)
    && (q.ecosystem.Some? ==> r.ecosystem == q.ecosystem.value)
    && (q.state.Some? ==> StateOf(r, now) == q.state.value)
    && (q.deadlineBefore.Some? ==> Deadline(r) <= q.deadlineBefore.value)
  }

  datatype Item = Item(record: Record, state: TrashState, deadline: int, restorable: bool)

  function MakeItem(r: Record, now: int): Item {
    Item(r, StateOf(r, now), Deadline(r), IsRestorable(r, now))
  }

  function Items(s: seq<Record>, now: int): seq<Item> {
    seq(|s|, i requires 0 <= i < |s| => MakeItem(s[i], now))
  }

  datatype Page = Page(items: seq<Item>, nextCursor: Option<Text>)

  predicate Before(r: Record, s: Record) {
    Leq(Cursor(r), Cursor(s))
  }

  function Retain(records: seq<Record>, q: Query, now: int): seq<Record> {
    if records == [] then []
    else if Matches(q, records[0], now) then [records[0]] + Retain(records[1..], q, now)
    else Retain(records[1..], q, now)
  }

  /** The matching records in cursor order. */
  function Listed(records: seq<Record>, q: Query, now: int): seq<Record> {
    Sort(Retain(records, q, now), Before)
  }

  /** How many records at the front are at or before `cursor`. */
  function PartitionPoint(s: seq<Record>, cursor: Text): (p: nat)
    ensures p <= |s|
  {
    if s != [] && Leq(Cursor(s[0]), cursor) then 1 + PartitionPoint(s[1..], cursor) else 0
  }

  function Start(s: seq<Record>, cursor: Option<Text>): (p: nat)
    ensures p <= |s|
  {
    if cursor.None? then 0 else PartitionPoint(s, cursor.value)
  }

  function Paginate(records: seq<Record>, q: Query, now: int): Page
    requires q.limit >= 1
  {
    var sorted := Listed(records, q, now);
    var page := sorted[Start(sorted, q.cursor)..];
    if q.limit < |page| then Page(Items(page[..q.limit], now), Some(Cursor(page[q.limit - 1])))
    else Page(Items(page, now), None)
  }

  function Serve(records: seq<Record>, q: Query, now: int): Result<Page, QueryError> {
    if Validate(q).Err? then Err(Validate(q).error) else Ok(Paginate(records, q, now))
  }

  // ---------------------------------------------------------------------------------------------
  // What a listing holds
  // ---------------------------------------------------------------------------------------------

  /**
    A deleted record can be restored for thirty days, to the end of time at most, while its bytes are retained.
    An item says so, with the record as it is.
  */
  lemma ItemIs(r: Record, now: Seconds)
    ensures var item := MakeItem(r, now);
      && item.record == r
      && (r.deletedAt <= 9223372036854775807 - 2592000 ==> item.deadline == r.deletedAt + 2592000)
      && (r.deletedAt > 9223372036854775807 - 2592000 ==> item.deadline == 9223372036854775807)
      && (item.restorable <==> r.retained && now < item.deadline)
      && (item.state == Restorable <==> item.restorable) && (item.state == Expired <==> !item.restorable)
      && (r.deletedAt <= 9223372036854775807 - 2592000 ==>
            (item.state == Restorable <==> r.retained && now - r.deletedAt < 2592000))
  {
  }

  /** A record is asked for when each filter given names its own field, its state at `now` or a later deadline. */
  ghost predicate AskedFor(q: Query, r: Record, now: Seconds) {
    var item := MakeItem(r, now);
    && (q.repository == None || q.repository == Some(r.repository))
    && (q.ecosystem == None || q.ecosystem == Some(r.ecosystem))
    && (q.state == None || q.state == Some(item.state))
    && (q.deadlineBefore == None || item.deadline <= q.deadlineBefore.value)
  }

  /** A listing holds every record asked for as often as it was given, and no other. */
  lemma {:induction false} ListedIff(records: seq<Record>, q: Query, now: Seconds, r: Record)
    ensures multiset(Listed(records, q, now))[r] == if AskedFor(q, r, now) then multiset(records)[r] else 0
    decreases |records|
  {
    hide Matches, AskedFor, Sort;
    MatchesIff(q, r, now);
    if records != [] {
      ListedIff(records[1..], q, now, r);
      assert records == [records[0]] + records[1..];
    }
  }

  lemma MatchesIff(q: Query, r: Record, now: Seconds)
    ensures Matches(q, r, now) <==> AskedFor(q, r, now)
  {
  }

  /** A query is refused for its limit, then its cursor, then its repository, each exactly when out of bounds. */
  lemma ValidateIff(q: Query)
    ensures var limit := 1 <= q.limit <= 100;
      var cursor := q.cursor.Some? ==> 1 <= |q.cursor.value| <= 1024;
      var repository := q.repository.Some? ==> |q.repository.value| <= 512;
      && (Validate(q) == Err(InvalidLimit) <==> !limit)
      && (Validate(q) == Err(InvalidCursor) <==> limit && !cursor)
      && (Validate(q) == Err(RepositoryTooLong) <==> limit && cursor && !repository)
      && (Validate(q) == Ok(()) <==> limit && cursor && repository)
  {
  }

  // ---------------------------------------------------------------------------------------------
  // Where a page begins
  // ---------------------------------------------------------------------------------------------

  lemma BeforeOrders()
    ensures TotalOrder(Before)
  {
    forall r: Record, s: Record ensures Before(r, s) || Before(s, r) { LeqTotal(Cursor(r), Cursor(s)); }
    forall r: Record, s: Record, t: Record | Before(r, s) && Before(s, t) ensures Before(r, t) {
      LeqTransitive(Cursor(r), Cursor(s), Cursor(t));
    }
  }

  lemma ListedSorted(records: seq<Record>, q: Query, now: int)
    ensures Sorted(Listed(records, q, now), Before)
  {
    BeforeOrders();
    SortSorted(Retain(records, q, now), Before);
  }

  lemma {:induction false} PartitionPointIs(s: seq<Record>, cursor: Text)
    requires Sorted(s, Before)
    ensures var p := PartitionPoint(s, cursor);
      && (forall i :: 0 <= i < p ==> Leq(Cursor(s[i]), cursor))
      && (forall i :: p <= i < |s| ==> !Leq(Cursor(s[i]), cursor))
  {
    hide Leq, Cursor;
    if s != [] {
      PartitionPointIs(s[1..], cursor);
      if !Leq(Cursor(s[0]), cursor) {
        forall i | 0 <= i < |s| ensures !Leq(Cursor(s[i]), cursor) {
          if i > 0 && Leq(Cursor(s[i]), cursor) {
            assert Before(s[0], s[i]);
            LeqTransitive(Cursor(s[0]), Cursor(s[i]), cursor);
          }
        }
      }
    }
  }

  ghost predicate CursorsDistinct(s: seq<Record>) {
    forall i, j :: 0 <= i < j < |s| ==> Cursor(s[i]) != Cursor(s[j])
  }

  /** Resuming after row `k` skips it, and with distinct cursors skips nothing more. */
  lemma ResumeAfter(s: seq<Record>, k: nat)
    requires Sorted(s, Before) && k < |s|
    ensures PartitionPoint(s, Cursor(s[k])) > k
    ensures CursorsDistinct(s) ==> PartitionPoint(s, Cursor(s[k])) == k + 1
    ensures k + 1 < |s| && Cursor(s[k]) == Cursor(s[k + 1]) ==> PartitionPoint(s, Cursor(s[k])) > k + 1
  {
    hide Leq, Cursor;
    var p := PartitionPoint(s, Cursor(s[k]));
    PartitionPointIs(s, Cursor(s[k]));
    LeqTotal(Cursor(s[k]), Cursor(s[k]));
    if CursorsDistinct(s) && p > k + 1 {
      assert Before(s[k], s[k + 1]);
      LeqTotal(Cursor(s[k]), Cursor(s[k + 1]));
    }
  }

  // ---------------------------------------------------------------------------------------------
  // Following the cursor
  // ---------------------------------------------------------------------------------------------

  /** The next page starts past this one. */
  lemma NextPage(records: seq<Record>, q: Query, now: int)
    requires q.limit >= 1
    ensures var s := Listed(records, q, now);
      var k := Start(s, q.cursor);
      var page := Paginate(records, q, now);
      && (k + q.limit < |s| ==>
        && page == Page(Items(s[k..k + q.limit], now), Some(Cursor(s[k + q.limit - 1])))
        && Start(s, page.nextCursor) >= k + q.limit)
      && (k + q.limit >= |s| ==> page == Page(Items(s[k..], now), None))
  {
    var s := Listed(records, q, now);
    var k := Start(s, q.cursor);
    ListedSorted(records, q, now);
    if k + q.limit < |s| {
      assert s[k..][..q.limit] == s[k..k + q.limit];
      assert s[k..][q.limit - 1] == s[k + q.limit - 1];
      ResumeAfter(s, k + q.limit - 1);
    }
  }

  /** The listing depends on neither the cursor nor the limit. */
  lemma SameListing(records: seq<Record>, p: Query, q: Query, now: int)
    requires p == q.(cursor := p.cursor, limit := p.limit)
    ensures Listed(records, p, now) == Listed(records, q, now)
  {
    SameRetained(records, p, q, now);
  }

  lemma {:induction false} SameRetained(records: seq<Record>, p: Query, q: Query, now: int)
    requires p == q.(cursor := p.cursor, limit := p.limit)
    ensures Retain(records, p, now) == Retain(records, q, now)
  {
    if records != [] { SameRetained(records[1..], p, q, now); }
  }

  /** Every page of a query, fetched by following the cursor of the last one. */
  ghost function Follow(records: seq<Record>, q: Query, now: int): Result<seq<Item>, QueryError>
    decreases |Listed(records, q, now)| - Start(Listed(records, q, now), q.cursor)
  {
    if Validate(q).Err? then Err(Validate(q).error) else
      var page := Serve(records, q, now).value;
      if page.nextCursor.None? then Ok(page.items) else
        NextPage(records, q, now);
        SameListing(records, q.(cursor := page.nextCursor), q, now);
        var rest := Follow(records, q.(cursor := page.nextCursor), now);
        if rest.Err? then rest else Ok(page.items + rest.value)
  }

  /** Every cursor that a page of `limit` rows, counted from row `k`, hands out is short enough to be taken back. */
  predicate BoundariesFit(s: seq<Record>, k: nat, limit: nat)
    requires limit >= 1
    decreases |s| - k
  {
    k + limit < |s| ==> |Cursor(s[k + limit - 1])| <= MAX_CURSOR_BYTES && BoundariesFit(s, k + limit, limit)
  }

  lemma ItemsConcat(s: seq<Record>, k: nat, m: nat, now: int)
    requires k <= m <= |s|
    ensures Items(s[k..m], now) + Items(s[m..], now) == Items(s[k..], now)
  {
    assert s[k..] == s[k..m] + s[m..];
  }

  lemma {:induction false} FollowFrom(records: seq<Record>, q: Query, now: int)
    requires Validate(q).Ok? && CursorsDistinct(Listed(records, q, now))
    ensures var s := Listed(records, q, now);
      var k := Start(s, q.cursor);
      Follow(records, q, now) == if BoundariesFit(s, k, q.limit) then Ok(Items(s[k..], now)) else Err(InvalidCursor)
    decreases |Listed(records, q, now)| - Start(Listed(records, q, now), q.cursor)
  {
    hide Listed, PartitionPoint, Cursor, Items, Paginate;
    var s := Listed(records, q, now);
    var k := Start(s, q.cursor);
    NextPage(records, q, now);
    if k + q.limit < |s| {
      var b := k + q.limit - 1;
      var next := q.(cursor := Some(Cursor(s[b])));
      SameListing(records, next, q, now);
      ListedSorted(records, q, now);
      ResumeAfter(s, b);
      CursorNotEmpty(s[b]);
      ItemsConcat(s, k, b + 1, now);
      if |Cursor(s[b])| <= MAX_CURSOR_BYTES {
        FollowFrom(records, next, now);
      }
    }
  }

  lemma CursorNotEmpty(r: Record)
    ensures Cursor(r) != []
  {
  }

  // ---------------------------------------------------------------------------------------------
  // Reassembly
  // ---------------------------------------------------------------------------------------------

  lemma CursorsDistinctIff(s: seq<Record>)
    ensures CursorsDistinct(s) <==>
      Distinct(s) && forall r, t :: r in s && t in s && r != t ==> Cursor(r) != Cursor(t)
  {
    hide Cursor;
    if CursorsDistinct(s) {
      forall r, t | r in s && t in s && r != t ensures Cursor(r) != Cursor(t) {
        var i, j :| 0 <= i < |s| && s[i] == r && 0 <= j < |s| && s[j] == t;
      }
    }
  }

  lemma {:induction false} RetainKeeps(records: seq<Record>, q: Query, now: int)
    ensures forall r :: r in Retain(records, q, now) <==> r in records && Matches(q, r, now)
    ensures Distinct(records) ==> Distinct(Retain(records, q, now))
  {
    hide Matches;
    if records != [] {
      RetainKeeps(records[1..], q, now);
      assert records == [records[0]] + records[1..];
    }
  }

  lemma ListedDistinct(records: seq<Record>, q: Query, now: int)
    requires CursorsDistinct(records)
    ensures CursorsDistinct(Listed(records, q, now))
  {
    hide Cursor, CursorsDistinct, Matches, Distinct, Sort, Retain;
    var kept := Retain(records, q, now);
    CursorsDistinctIff(records);
    RetainKeeps(records, q, now);
    SortMembers(kept, Before);
    CursorsDistinctIff(Listed(records, q, now));
  }

  /**
    From records with distinct cursors, following the cursor from the first page yields every matching
    record exactly once, in cursor order, for any valid limit; unless some page hands out a cursor too long
    to be taken back, and then it ends in that error.
  */
  lemma PagesReassemble(records: seq<Record>, q: Query, now: int)
    requires Validate(q).Ok? && q.cursor.None? && CursorsDistinct(records)
    ensures var s := Listed(records, q, now);
      && Sorted(s, Before) && multiset(s) == multiset(Retain(records, q, now))
      && (forall r :: r in s <==> r in records && Matches(q, r, now))
      && Follow(records, q, now) == if BoundariesFit(s, 0, q.limit) then Ok(Items(s, now)) else Err(InvalidCursor)
  {
    hide Follow, Retain, Sort, BoundariesFit, CursorsDistinct, Sorted;
    var s := Listed(records, q, now);
    ListedSorted(records, q, now);
    ListedDistinct(records, q, now);
    RetainKeeps(records, q, now);
    SortMembers(Retain(records, q, now), Before);
    FollowFrom(records, q, now);
    assert s[0..] == s;
  }

  /** What follows from row `k` never repeats a row, and loses one where two rows share a cursor. */
  lemma {:induction false} FollowLoses(records: seq<Record>, q: Query, now: int, i: nat)
    requires q.limit == 1
    requires Follow(records, q, now).Ok?
    ensures var s := Listed(records, q, now);
      var k := Start(s, q.cursor);
      && |Follow(records, q, now).value| <= |s| - k
      && (k <= i && i + 1 < |s| && Cursor(s[i]) == Cursor(s[i + 1]) ==> |Follow(records, q, now).value| < |s| - k)
    decreases |Listed(records, q, now)| - Start(Listed(records, q, now), q.cursor)
  {
    hide Listed, PartitionPoint, Cursor, Items, Paginate;
    var s := Listed(records, q, now);
    var k := Start(s, q.cursor);
    NextPage(records, q, now);
    ItemsLength(s[k..], now);
    if k + 1 < |s| {
      ItemsLength(s[k..k + 1], now);
      var next := q.(cursor := Some(Cursor(s[k])));
      SameListing(records, next, q, now);
      ListedSorted(records, q, now);
      ResumeAfter(s, k);
      FollowLoses(records, next, now, i);
    }
  }

  lemma ItemsLength(s: seq<Record>, now: int)
    ensures |Items(s, now)| == |s|
  {
  }

  ghost predicate Reassembles(records: seq<Record>, q: Query, now: int, limit: nat) {
    Follow(records, q.(limit := limit), now) == Ok(Items(Listed(records, q, now), now))
  }

  /** Distinct cursors are exactly what paging needs, if it is to work for every limit. */
  lemma ReassembleIff(records: seq<Record>, q: Query, now: int)
    requires q.cursor.None? && (q.repository.Some? ==> |q.repository.value| <= MAX_REPOSITORY_BYTES)
    requires forall r :: r in Listed(records, q, now) ==> |Cursor(r)| <= MAX_CURSOR_BYTES
    ensures (forall limit :: 1 <= limit <= MAX_LIMIT ==> Reassembles(records, q, now, limit))
      <==> CursorsDistinct(Listed(records, q, now))
  {
    var s := Listed(records, q, now);
    assert s[0..] == s;
    if CursorsDistinct(s) {
      forall limit | 1 <= limit <= MAX_LIMIT ensures Reassembles(records, q, now, limit) {
        SameListing(records, q.(limit := limit), q, now);
        AllFit(s, 0, limit);
        FollowFrom(records, q.(limit := limit), now);
      }
    }
    if Reassembles(records, q, now, 1) && !CursorsDistinct(s) {
      SameListing(records, q.(limit := 1), q, now);
      ListedSorted(records, q, now);
      var i := AdjacentDuplicate(s);
      FollowLoses(records, q.(limit := 1), now, i);
    }
  }

  lemma {:induction false} AllFit(s: seq<Record>, k: nat, limit: nat)
    requires limit >= 1 && forall r :: r in s ==> |Cursor(r)| <= MAX_CURSOR_BYTES
    ensures BoundariesFit(s, k, limit)
    decreases |s| - k
  {
    hide Cursor;
    if k + limit < |s| {
      assert s[k + limit - 1] in s;
      AllFit(s, k + limit, limit);
    }
  }

  /** Among sorted rows, equal cursors are neighbours. */
  lemma AdjacentDuplicate(s: seq<Record>) returns (i: nat)
    requires Sorted(s, Before) && !CursorsDistinct(s)
    ensures i + 1 < |s| && Cursor(s[i]) == Cursor(s[i + 1])
  {
    hide Leq, Cursor;
    var j;
    i, j :| 0 <= i < j < |s| && Cursor(s[i]) == Cursor(s[j]);
    assert Before(s[i], s[i + 1]);
    if i + 1 < j { assert Before(s[i + 1], s[j]); }
    LeqTotal(Cursor(s[i]), Cursor(s[i + 1]));
  }

  // ---------------------------------------------------------------------------------------------
  // A cursor too long to be taken back
  // ---------------------------------------------------------------------------------------------

  const EVERYTHING := Query(None, None, None, None, None, 1)

  /** Of two records deleted at different times since 1970, the listing has the later one first. */
  lemma TwoListed(later: Record, earlier: Record, now: int)
    requires later.deletedAt > earlier.deletedAt >= 0
    ensures Listed([later, earlier], EVERYTHING, now) == [later, earlier]
    ensures CursorsDistinct([later, earlier])
  {
    var s := Listed([later, earlier], EVERYTHING, now);
    NewestFirst(later, earlier);
    hide Cursor, Leq;
    assert [later, earlier][1..] == [earlier] && [earlier][1..] == [];
    assert Retain([earlier], EVERYTHING, now) == [earlier];
    assert Retain([later, earlier], EVERYTHING, now) == [later] + [earlier];
    assert Sort([earlier], Before) == [earlier];
    assert Before(later, earlier);
    assert Sort([later, earlier], Before) == InsertSorted(later, [earlier], Before) == [later, earlier];
  }

  /** Whenever the first of two such records has a cursor past the bound, paging one at a time ends in an error. */
  lemma LongCursorStops(later: Record, earlier: Record, now: int)
    requires later.deletedAt > earlier.deletedAt >= 0 && |Cursor(later)| > MAX_CURSOR_BYTES
    ensures Follow([later, earlier], EVERYTHING, now) == Err(InvalidCursor)
  {
    hide Cursor, Follow, Listed, CursorsDistinct;
    TwoListed(later, earlier, now);
    PagesReassemble([later, earlier], EVERYTHING, now);
    assert !BoundariesFit([later, earlier], 0, 1);
  }

  /** A PyPI upload whose file name has a thousand bytes is enough. */
  lemma LongNameStops(now: int, retained: bool)
    ensures var pypi: Text := [0x70, 0x79, 0x70, 0x69];
      var name: Text := seq(1024, i => 0x61);
      var later := Record(pypi, [0x72], [0x70], Some(name), None, 1, retained);
      var earlier := Record(pypi, [0x72], [0x70], Some([0x62]), None, 0, retained);
      Follow([later, earlier], EVERYTHING, now) == Err(InvalidCursor)
  {
    var pypi: Text := [0x70, 0x79, 0x70, 0x69];
    var name: Text := seq(1024, i => 0x61);
    var later := Record(pypi, [0x72], [0x70], Some(name), None, 1, retained);
    var earlier := Record(pypi, [0x72], [0x70], Some([0x62]), None, 0, retained);
    assert |Cursor(later)| > MAX_CURSOR_BYTES by {
      hide Padded;
      assert |Identity(later)| > MAX_CURSOR_BYTES;
    }
    LongCursorStops(later, earlier, now);
  }
}
