/** Bucketing of request logs for the statistics chart, and its group-by specification. */
module TimeSeries {
  import opened Wrappers

  /** A log row. created is the parsed timestamp in epoch seconds, None if it does not parse. */
  datatype Row = Row(created: Option<real>, promptTokens: Option<int>, completionTokens: Option<int>, failed: bool)

  /** An entry of buckets_dict. */
  datatype Bucket = Bucket(start: int, requests: int, promptTokens: int, completionTokens: int, errors: int)
  {
    function Get(m: Measure): int {
      match m
      case RequestCount => requests
      case PromptTokens => promptTokens
      case CompletionTokens => completionTokens
      case ErrorCount => errors
    }
  }

  /** What a bucket sums up. */
  datatype Measure = RequestCount | PromptTokens | CompletionTokens | ErrorCount

  function OrZero(tokens: Option<int>): int {
    if tokens.Some? then tokens.value else 0
  }

  /** What one row adds to a measure of its bucket. */
  function Weight(r: Row, m: Measure): int {
    match m
    case RequestCount => 1
    case PromptTokens => (match r.promptTokens case None => 0 case Some(n) => n)
    case CompletionTokens => (match r.completionTokens case None => 0 case Some(n) => n)
    case ErrorCount => if r.failed then 1 else 0
  }

  /** (ts // interval) * interval */
  function StartOf(ts: real, interval: int): int
    requires interval > 0
  {
    (ts / interval as real).Floor * interval
  }

  function AlignedTo(interval: int): real -> int
    requires interval > 0
  {
    ts => StartOf(ts, interval)
  }

  /** Floor division brackets: an aligned interval contains its rows. */
  lemma StartBrackets(ts: real, interval: int)
    requires interval > 0
    ensures StartOf(ts, interval) % interval == 0
    ensures StartOf(ts, interval) as real <= ts < (StartOf(ts, interval) + interval) as real
  {
    var q, x := (ts / interval as real).Floor, ts / interval as real;
    QuotientTimesDivisor(ts, interval as real);
    ProductBrackets(q, x, interval);
    MultipleHasNoRemainder(q, interval);
  }

  lemma ProductBrackets(q: int, x: real, interval: int)
    requires interval > 0 && q as real <= x < q as real + 1.0
    ensures (q * interval) as real <= x * interval as real < (q * interval + interval) as real
  {
    BracketBelow(q, x, interval);
    BracketAbove(q + 1, x, interval);
    NextMultiple(q, interval);
  }

  lemma BracketBelow(q: int, x: real, interval: int)
    requires interval > 0 && q as real <= x
    ensures (q * interval) as real <= x * interval as real
  {
    LowerProduct(q as real, x, interval as real);
    ProductAsReal(q, interval);
  }

  lemma BracketAbove(q: int, x: real, interval: int)
    requires interval > 0 && x < q as real
    ensures x * interval as real < (q * interval) as real
  {
    UpperProduct(x, q as real, interval as real);
    ProductAsReal(q, interval);
  }

  lemma QuotientTimesDivisor(x: real, n: real)
    requires n > 0.0
    ensures (x / n) * n == x
  {
  }

  lemma LowerProduct(a: real, b: real, n: real)
    requires n > 0.0 && a <= b
    ensures a * n <= b * n
  {
  }

  lemma UpperProduct(a: real, b: real, n: real)
    requires n > 0.0 && a < b
    ensures a * n < b * n
  {
  }

  lemma ProductAsReal(q: int, n: int)
    ensures (q * n) as real == q as real * n as real
  {
  }

  lemma NextMultiple(q: int, n: int)
    ensures (q + 1) * n == q * n + n
  {
  }

  lemma MultipleHasNoRemainder(q: int, n: int)
    requires n > 0
    ensures q * n % n == 0
  {
    RemainderIsUnique(q * n, n, q, 0);
  }

  lemma RemainderIsUnique(x: int, n: int, q: int, r: int)
    requires n > 0 && 0 <= r < n && x == q * n + r
    ensures x % n == r
  {
    var q', r' := x / n, x % n;
    assert (q - q') * n == r' - r;
    if q > q' {
      ScaleOrderInt(1, q - q', n);
    } else if q < q' {
      ScaleOrderInt(q - q', -1, n);
    }
  }

  // ----- Group-by over any key -----

  predicate FallsIn(r: Row, key: real -> int, start: int)
  {
    r.created.Some? && key(r.created.value) == start
  }

  /** Group-by: the sum of a measure over the rows that fall in the bucket. */
  function GroupTotal(rows: seq<Row>, key: real -> int, start: int, m: Measure): int {
    if rows == [] then 0
    else
      var r := rows[|rows| - 1];
      GroupTotal(rows[..|rows| - 1], key, start, m) + (if FallsIn(r, key, start) then Weight(r, m) else 0)
  }

  /** The keys that occur. */
  function Starts(rows: seq<Row>, key: real -> int): set<int> {
    if rows == [] then {}
    else
      var before, r := Starts(rows[..|rows| - 1], key), rows[|rows| - 1];
      if r.created.Some? then before + {key(r.created.value)} else before
  }

  /** The sum of a measure over all rows that parse. */
  function ParsedTotal(rows: seq<Row>, m: Measure): int {
    if rows == [] then 0
    else
      var r := rows[|rows| - 1];
      ParsedTotal(rows[..|rows| - 1], m) + (if r.created.Some? then Weight(r, m) else 0)
  }

  function SumOf(buckets: seq<Bucket>, m: Measure): int {
    if buckets == [] then 0 else SumOf(buckets[..|buckets| - 1], m) + buckets[|buckets| - 1].Get(m)
  }

  predicate StrictlyIncreasing(buckets: seq<Bucket>) {
    forall i, j :: 0 <= i < j < |buckets| ==> buckets[i].start < buckets[j].start
  }

  /** One bucket per start that occurs, in increasing order, each holding its group's totals. */
  ghost predicate IsGroupBy(buckets: seq<Bucket>, rows: seq<Row>, key: real -> int) {
    && StrictlyIncreasing(buckets)
    && (forall b :: b in buckets ==> b.start in Starts(rows, key) && HoldsGroup(b, rows, key))
    && (forall s :: s in Starts(rows, key) ==> exists b :: b in buckets && b.start == s)
  }

  ghost predicate HoldsGroup(b: Bucket, rows: seq<Row>, key: real -> int) {
    forall m :: b.Get(m) == GroupTotal(rows, key, b.start, m)
  }

  lemma GroupOneMore(rows: seq<Row>, r: Row, key: real -> int, s: int, m: Measure)
    ensures GroupTotal(rows + [r], key, s, m) ==
      GroupTotal(rows, key, s, m) + (if FallsIn(r, key, s) then Weight(r, m) else 0)
  {
    assert (rows + [r])[..|rows|] == rows;
  }

  lemma StartsOneMore(rows: seq<Row>, r: Row, key: real -> int)
    ensures Starts(rows + [r], key) == Starts(rows, key) + (if r.created.Some? then {key(r.created.value)} else {})
  {
    assert (rows + [r])[..|rows|] == rows;
  }

  lemma {:induction false} EveryRowHasAStart(rows: seq<Row>, key: real -> int, r: Row)
    requires r in rows && r.created.Some?
    ensures key(r.created.value) in Starts(rows, key)
  {
    var last := rows[|rows| - 1];
    if r != last {
      assert rows == rows[..|rows| - 1] + [last];
      EveryRowHasAStart(rows[..|rows| - 1], key, r);
    }
  }

  lemma {:induction false} AbsentGroupIsZero(rows: seq<Row>, key: real -> int, s: int, m: Measure)
    requires s !in Starts(rows, key)
    ensures GroupTotal(rows, key, s, m) == 0
  {
    if rows != [] {
      AbsentGroupIsZero(rows[..|rows| - 1], key, s, m);
    }
  }

  // ----- The bucketing loop -----

  ghost predicate Buckets(d: map<int, Bucket>, rows: seq<Row>, key: real -> int) {
    && d.Keys == Starts(rows, key)
    && forall s :: s in d ==> d[s].start == s && HoldsGroup(d[s], rows, key)
  }

  lemma BucketsSkip(d: map<int, Bucket>, rows: seq<Row>, r: Row, key: real -> int)
    requires Buckets(d, rows, key) && r.created.None?
    ensures Buckets(d, rows + [r], key)
  {
    StartsOneMore(rows, r, key);
    forall s, m | s in d ensures d[s].Get(m) == GroupTotal(rows + [r], key, s, m) {
      assert HoldsGroup(d[s], rows, key);
      GroupOneMore(rows, r, key, s, m);
    }
  }

  function Added(b: Bucket, r: Row): Bucket {
    Bucket(b.start, b.requests + 1, b.promptTokens + OrZero(r.promptTokens),
           b.completionTokens + OrZero(r.completionTokens), b.errors + (if r.failed then 1 else 0))
  }

  lemma AddedHoldsGroup(b: Bucket, rows: seq<Row>, r: Row, key: real -> int)
    requires HoldsGroup(b, rows, key) && FallsIn(r, key, b.start)
    ensures HoldsGroup(Added(b, r), rows + [r], key)
  {
    forall m ensures Added(b, r).Get(m) == GroupTotal(rows + [r], key, b.start, m) {
      GroupOneMore(rows, r, key, b.start, m);
    }
  }

  lemma OthersHoldGroup(b: Bucket, rows: seq<Row>, r: Row, key: real -> int)
    requires HoldsGroup(b, rows, key) && !FallsIn(r, key, b.start)
    ensures HoldsGroup(b, rows + [r], key)
  {
    forall m ensures b.Get(m) == GroupTotal(rows + [r], key, b.start, m) {
      GroupOneMore(rows, r, key, b.start, m);
    }
  }

  lemma EmptyHoldsGroup(rows: seq<Row>, key: real -> int, s: int)
    requires s !in Starts(rows, key)
    ensures HoldsGroup(Bucket(s, 0, 0, 0, 0), rows, key)
  {
    forall m ensures GroupTotal(rows, key, s, m) == 0 {
      AbsentGroupIsZero(rows, key, s, m);
    }
  }

  /** The entry for s, created if it is missing, grows by the row. */
  function Grown(d: map<int, Bucket>, s: int, r: Row): map<int, Bucket> {
    d[s := Added(if s in d then d[s] else Bucket(s, 0, 0, 0, 0), r)]
  }

  lemma BucketsAdd(d: map<int, Bucket>, rows: seq<Row>, r: Row, key: real -> int)
    requires Buckets(d, rows, key) && r.created.Some?
    ensures Buckets(Grown(d, key(r.created.value), r), rows + [r], key)
  {
    StartsOneMore(rows, r, key);
    var s := key(r.created.value);
    var e := Grown(d, s, r);
    forall t | t in e ensures e[t].start == t && HoldsGroup(e[t], rows + [r], key) {
      if t != s {
        OthersHoldGroup(d[t], rows, r, key);
      } else {
        if s !in d {
          EmptyHoldsGroup(rows, key, s);
        }
        AddedHoldsGroup(if s in d then d[s] else Bucket(s, 0, 0, 0, 0), rows, r, key);
      }
    }
  }

  method Collect(rows: seq<Row>, key: real -> int) returns (d: map<int, Bucket>)
    ensures Buckets(d, rows, key)
  {
    d := map[];
    var i := 0;
    while i < |rows|
      invariant 0 <= i <= |rows|
      invariant Buckets(d, rows[..i], key)
    {
      ghost var before, was := rows[..i], d;
      var r := rows[i];
      i := i + 1;
      assert rows[..i] == before + [r];
      if r.created.None? {
        BucketsSkip(was, before, r, key);
        continue;
      }
      var start := key(r.created.value);
      if start !in d {
        d := d[start := Bucket(start, 0, 0, 0, 0)];
      }
      var b := d[start];
      d := d[start := b.(requests := b.requests + 1)];
      d := d[start := d[start].(promptTokens := b.promptTokens + OrZero(r.promptTokens))];
      d := d[start := d[start].(completionTokens := b.completionTokens + OrZero(r.completionTokens))];
      if r.failed {
        d := d[start := d[start].(errors := b.errors + 1)];
      }
      assert d == Grown(was, start, r);
      BucketsAdd(was, before, r, key);
    }
    assert rows[..i] == rows;
  }

  /** sorted(buckets_dict.values(), key=timestamp) */
  method SortedByStart(d: map<int, Bucket>) returns (buckets: seq<Bucket>)
    requires forall s :: s in d ==> d[s].start == s
    ensures StrictlyIncreasing(buckets)
    ensures forall b :: b in buckets ==> b.start in d && b == d[b.start]
    ensures forall s :: s in d ==> d[s] in buckets
  {
    buckets := [];
    var left := d.Keys;
    while left != {}
      invariant left <= d.Keys
      invariant StrictlyIncreasing(buckets)
      invariant forall b :: b in buckets ==> b.start in d && b == d[b.start]
      invariant forall s :: s in d && s !in left ==> d[s] in buckets
      invariant forall b, s :: b in buckets && s in left ==> b.start < s
      decreases left
    {
      ghost var least := LeastExists(left);
      var s :| s in left && forall t :: t in left ==> s <= t;
      var b := d[s];
      assert forall i :: 0 <= i < |buckets| ==> buckets[i] in buckets;
      assert forall c :: c in buckets + [b] <==> c in buckets || c == b;
      buckets := buckets + [b];
      left := left - {s};
    }
  }

  lemma SomeElement<T>(s: set<T>) returns (e: T)
    requires s != {}
    ensures e in s
  {
    e :| e in s;
  }

  lemma {:induction false} LeastExists(left: set<int>) returns (m: int)
    requires left != {}
    ensures m in left && forall s :: s in left ==> m <= s
    decreases |left|
  {
    var e := SomeElement(left);
    var others := left - {e};
    if others == {} {
      assert left == {e};
      return e;
    }
    var least := LeastExists(others);
    m := if least < e then least else e;
    forall s | s in left ensures m <= s {
      assert s == e || s in others;
    }
  }

  method Series(rows: seq<Row>, interval: int) returns (buckets: seq<Bucket>)
    requires interval > 0
    ensures IsGroupBy(buckets, rows, AlignedTo(interval))
  {
    var d := Collect(rows, AlignedTo(interval));
    buckets := SortedByStart(d);
  }

  // ----- What the buckets guarantee -----

  lemma {:induction false} StartsAreAligned(rows: seq<Row>, interval: int, s: int)
    requires interval > 0 && s in Starts(rows, AlignedTo(interval))
    ensures s % interval == 0
  {
    var last := rows[|rows| - 1];
    if last.created.Some? && s == StartOf(last.created.value, interval) {
      StartBrackets(last.created.value, interval);
    } else {
      StartsAreAligned(rows[..|rows| - 1], interval, s);
    }
  }

  /** Only the aligned interval that starts where a row's bucket starts contains the row. */
  lemma OnlyItsOwnInterval(b: Bucket, interval: int, r: Row)
    requires interval > 0 && b.start % interval == 0 && r.created.Some?
    ensures InInterval(b, interval, r) <==> b.start == StartOf(r.created.value, interval)
  {
    var s := StartOf(r.created.value, interval);
    StartBrackets(r.created.value, interval);
    if InInterval(b, interval, r) {
      assert (b.start as real) < (s + interval) as real && (s as real) < (b.start + interval) as real;
      AlignedNeighbours(b.start, s, interval);
    }
  }

  /** Bucket starts are aligned, and every parsed row lies in the interval of exactly one bucket. */
  lemma EveryRowInOneBucket(buckets: seq<Bucket>, rows: seq<Row>, interval: int, r: Row)
    requires interval > 0 && IsGroupBy(buckets, rows, AlignedTo(interval))
    requires r in rows && r.created.Some?
    ensures forall b :: b in buckets ==> b.start % interval == 0
    ensures exists k :: 0 <= k < |buckets| && InInterval(buckets[k], interval, r) &&
              forall j :: 0 <= j < |buckets| && InInterval(buckets[j], interval, r) ==> j == k
  {
    forall b | b in buckets
      ensures b.start % interval == 0
      ensures InInterval(b, interval, r) <==> b.start == StartOf(r.created.value, interval)
    {
      StartsAreAligned(rows, interval, b.start);
      OnlyItsOwnInterval(b, interval, r);
    }
    var s := StartOf(r.created.value, interval);
    EveryRowHasAStart(rows, AlignedTo(interval), r);
    var b :| b in buckets && b.start == s;
    var k :| 0 <= k < |buckets| && buckets[k] == b;
    assert InInterval(buckets[k], interval, r);
    forall j | 0 <= j < |buckets| && InInterval(buckets[j], interval, r) ensures j == k {
      assert buckets[j] in buckets;
    }
  }

  predicate InInterval(b: Bucket, interval: int, r: Row) {
    r.created.Some? && b.start as real <= r.created.value < (b.start + interval) as real
  }

  /** Two multiples of n less than n apart are equal. */
  lemma AlignedNeighbours(a: int, b: int, n: int)
    requires n > 0 && a % n == 0 && b % n == 0
    requires a < b + n && b < a + n
    ensures a == b
  {
    var p, q := a / n, b / n;
    assert a == p * n && b == q * n;
    if p < q {
      ScaleOrderInt(p + 1, q, n);
    } else if q < p {
      ScaleOrderInt(q + 1, p, n);
    }
  }

  lemma ScaleOrderInt(a: int, b: int, n: int)
    requires n > 0 && a <= b
    ensures a * n <= b * n
  {
  }

  /** A measure summed over the groups with the given starts. */
  function GroupSum(rows: seq<Row>, key: real -> int, starts: seq<int>, m: Measure): int {
    if starts == [] then 0
    else GroupSum(rows, key, starts[..|starts| - 1], m) + GroupTotal(rows, key, starts[|starts| - 1], m)
  }

  predicate Distinct(starts: seq<int>) {
    forall i, j :: 0 <= i < j < |starts| ==> starts[i] != starts[j]
  }

  predicate Counts(r: Row, key: real -> int, starts: seq<int>) {
    r.created.Some? && key(r.created.value) in starts
  }

  lemma {:induction false} OtherGroupsUnchanged(rows: seq<Row>, r: Row, key: real -> int, starts: seq<int>, m: Measure)
    requires !Counts(r, key, starts)
    ensures GroupSum(rows + [r], key, starts, m) == GroupSum(rows, key, starts, m)
  {
    if starts != [] {
      var init, last := starts[..|starts| - 1], starts[|starts| - 1];
      assert starts == init + [last];
      OtherGroupsUnchanged(rows, r, key, init, m);
      GroupOneMore(rows, r, key, last, m);
    }
  }

  /** A further row adds its contribution to the group sum exactly once. */
  lemma {:induction false} RowCountsOnce(rows: seq<Row>, r: Row, key: real -> int, starts: seq<int>, m: Measure)
    requires Distinct(starts) && Counts(r, key, starts)
    ensures GroupSum(rows + [r], key, starts, m) == GroupSum(rows, key, starts, m) + Weight(r, m)
  {
    var init, last := starts[..|starts| - 1], starts[|starts| - 1];
    assert starts == init + [last];
    GroupOneMore(rows, r, key, last, m);
    if key(r.created.value) == last {
      OtherGroupsUnchanged(rows, r, key, init, m);
    } else {
      RowCountsOnce(rows, r, key, init, m);
    }
  }

  lemma {:induction false} EmptyGroups(key: real -> int, starts: seq<int>, m: Measure)
    ensures GroupSum([], key, starts, m) == 0
  {
    if starts != [] {
      EmptyGroups(key, starts[..|starts| - 1], m);
    }
  }

  lemma ParsedOneMore(rows: seq<Row>, r: Row, m: Measure)
    ensures ParsedTotal(rows + [r], m) == ParsedTotal(rows, m) + (if r.created.Some? then Weight(r, m) else 0)
  {
    assert (rows + [r])[..|rows|] == rows;
  }

  lemma PartitionOneMore(rows: seq<Row>, r: Row, key: real -> int, starts: seq<int>, m: Measure)
    requires Distinct(starts) && (r.created.Some? ==> Counts(r, key, starts))
    requires GroupSum(rows, key, starts, m) == ParsedTotal(rows, m)
    ensures GroupSum(rows + [r], key, starts, m) == ParsedTotal(rows + [r], m)
  {
    ParsedOneMore(rows, r, m);
    if r.created.Some? {
      RowCountsOnce(rows, r, key, starts, m);
    } else {
      OtherGroupsUnchanged(rows, r, key, starts, m);
    }
  }

  ghost predicate Covers(starts: seq<int>, rows: seq<Row>, key: real -> int) {
    Starts(rows, key) <= set s | s in starts
  }

  lemma {:induction false} GroupsPartitionRows(rows: seq<Row>, key: real -> int, starts: seq<int>, m: Measure)
    requires Distinct(starts) && Covers(starts, rows, key)
    ensures GroupSum(rows, key, starts, m) == ParsedTotal(rows, m)
  {
    if rows == [] {
      EmptyGroups(key, starts, m);
    } else {
      var before, r := rows[..|rows| - 1], rows[|rows| - 1];
      assert rows == before + [r];
      StartsOneMore(before, r, key);
      if r.created.Some? {
        EveryRowHasAStart(rows, key, r);
      }
      GroupsPartitionRows(before, key, starts, m);
      PartitionOneMore(before, r, key, starts, m);
    }
  }

  function StartsOf(buckets: seq<Bucket>): seq<int> {
    seq(|buckets|, i requires 0 <= i < |buckets| => buckets[i].start)
  }

  lemma {:induction false} SumIsGroupSum(buckets: seq<Bucket>, rows: seq<Row>, key: real -> int, m: Measure)
    requires forall b :: b in buckets ==> HoldsGroup(b, rows, key)
    ensures SumOf(buckets, m) == GroupSum(rows, key, StartsOf(buckets), m)
  {
    if buckets != [] {
      var init := buckets[..|buckets| - 1];
      assert forall b :: b in init ==> b in buckets;
      var last := buckets[|buckets| - 1];
      assert HoldsGroup(last, rows, key);
      assert last.Get(m) == GroupTotal(rows, key, last.start, m);
      assert StartsOf(buckets)[|buckets| - 1] == last.start;
      SumIsGroupSum(init, rows, key, m);
      assert StartsOf(buckets)[..|buckets| - 1] == StartsOf(init);
    }
  }

  /** Conservation: requests, tokens and errors summed over the buckets equal the totals of the parsed rows. */
  lemma Conservation(buckets: seq<Bucket>, rows: seq<Row>, interval: int, m: Measure)
    requires interval > 0 && IsGroupBy(buckets, rows, AlignedTo(interval))
    ensures SumOf(buckets, m) == ParsedTotal(rows, m)
  {
    SumIsGroupSum(buckets, rows, AlignedTo(interval), m);
    assert IsGroupBy(buckets, rows, AlignedTo(interval));
    forall s | s in Starts(rows, AlignedTo(interval)) ensures s in StartsOf(buckets) {
      var b :| b in buckets && b.start == s;
      var k :| 0 <= k < |buckets| && buckets[k] == b;
      assert StartsOf(buckets)[k] == s;
    }
    GroupsPartitionRows(rows, AlignedTo(interval), StartsOf(buckets), m);
  }

  // ----- The totals in plain terms -----

  function PromptOf(r: Row): Option<int> { r.promptTokens }

  function CompletionOf(r: Row): Option<int> { r.completionTokens }

  /** The token counts that the kept rows carry; null counts are left out. */
  function Carried(rows: seq<Row>, keep: Row -> bool, tokens: Row -> Option<int>): seq<int> {
    if rows == [] then []
    else
      var r, before := rows[|rows| - 1], Carried(rows[..|rows| - 1], keep, tokens);
      if keep(r) && tokens(r).Some? then before + [tokens(r).value] else before
  }

  function Sum(ns: seq<int>): int {
    if ns == [] then 0 else Sum(ns[..|ns| - 1]) + ns[|ns| - 1]
  }

  function Kept(rows: seq<Row>, keep: Row -> bool): set<nat> {
    set i: nat | i < |rows| && keep(rows[i])
  }

  function KeptFailures(rows: seq<Row>, keep: Row -> bool): set<nat> {
    set i: nat | i < |rows| && keep(rows[i]) && rows[i].failed
  }

  /** The sum of a measure over the kept rows. */
  function Total(rows: seq<Row>, keep: Row -> bool, m: Measure): int {
    if rows == [] then 0
    else Total(rows[..|rows| - 1], keep, m) + (if keep(rows[|rows| - 1]) then Weight(rows[|rows| - 1], m) else 0)
  }

  /** What a total is: how many rows, how many failed ones, the sum of the token counts there are. */
  ghost predicate Plain(rows: seq<Row>, keep: Row -> bool, requests: int, prompt: int, completion: int, errors: int) {
    && requests == |Kept(rows, keep)|
    && errors == |KeptFailures(rows, keep)|
    && prompt == Sum(Carried(rows, keep, PromptOf))
    && completion == Sum(Carried(rows, keep, CompletionOf))
  }

  lemma SumOneMore(ns: seq<int>, n: int)
    ensures Sum(ns + [n]) == Sum(ns) + n
  {
    assert (ns + [n])[..|ns|] == ns;
  }

  lemma CarriedOneMore(rows: seq<Row>, r: Row, keep: Row -> bool, tokens: Row -> Option<int>)
    ensures Sum(Carried(rows + [r], keep, tokens)) ==
      Sum(Carried(rows, keep, tokens)) + (if keep(r) && tokens(r).Some? then tokens(r).value else 0)
  {
    assert (rows + [r])[..|rows|] == rows;
    if keep(r) && tokens(r).Some? {
      SumOneMore(Carried(rows, keep, tokens), tokens(r).value);
    }
  }

  lemma {:induction false} PromptTotal(rows: seq<Row>, keep: Row -> bool)
    ensures Total(rows, keep, PromptTokens) == Sum(Carried(rows, keep, PromptOf))
  {
    if rows != [] {
      var r, before := rows[|rows| - 1], rows[..|rows| - 1];
      assert rows == before + [r];
      PromptTotal(before, keep);
      CarriedOneMore(before, r, keep, PromptOf);
    }
  }

  lemma {:induction false} CompletionTotal(rows: seq<Row>, keep: Row -> bool)
    ensures Total(rows, keep, CompletionTokens) == Sum(Carried(rows, keep, CompletionOf))
  {
    if rows != [] {
      var r, before := rows[|rows| - 1], rows[..|rows| - 1];
      assert rows == before + [r];
      CompletionTotal(before, keep);
      CarriedOneMore(before, r, keep, CompletionOf);
    }
  }

  lemma {:induction false} RequestTotal(rows: seq<Row>, keep: Row -> bool)
    ensures Total(rows, keep, RequestCount) == |Kept(rows, keep)|
  {
    if rows == [] {
      assert Kept(rows, keep) == {};
    } else {
      var n := |rows| - 1;
      RequestTotal(rows[..n], keep);
      assert Kept(rows, keep) == Kept(rows[..n], keep) + (if keep(rows[n]) then {n} else {});
    }
  }

  lemma {:induction false} ErrorTotal(rows: seq<Row>, keep: Row -> bool)
    ensures Total(rows, keep, ErrorCount) == |KeptFailures(rows, keep)|
  {
    if rows == [] {
      assert KeptFailures(rows, keep) == {};
    } else {
      var n := |rows| - 1;
      var more := if keep(rows[n]) && rows[n].failed then {n} else {};
      ErrorTotal(rows[..n], keep);
      assert KeptFailures(rows, keep) == KeptFailures(rows[..n], keep) + more;
    }
  }

  lemma TotalsArePlain(rows: seq<Row>, keep: Row -> bool)
    ensures Plain(rows, keep, Total(rows, keep, RequestCount), Total(rows, keep, PromptTokens),
                  Total(rows, keep, CompletionTokens), Total(rows, keep, ErrorCount))
  {
    RequestTotal(rows, keep);
    PromptTotal(rows, keep);
    CompletionTotal(rows, keep);
    ErrorTotal(rows, keep);
  }

  predicate Parses(r: Row) { r.created.Some? }

  lemma {:induction false} ParsedTotalKeeps(rows: seq<Row>, m: Measure)
    ensures ParsedTotal(rows, m) == Total(rows, Parses, m)
  {
    if rows != [] {
      ParsedTotalKeeps(rows[..|rows| - 1], m);
    }
  }

  lemma {:induction false} GroupTotalKeeps(rows: seq<Row>, key: real -> int, start: int, keep: Row -> bool, m: Measure)
    requires forall r :: r in rows ==> (keep(r) <==> FallsIn(r, key, start))
    ensures GroupTotal(rows, key, start, m) == Total(rows, keep, m)
  {
    if rows != [] {
      assert forall r :: r in rows[..|rows| - 1] ==> r in rows;
      assert rows[|rows| - 1] in rows;
      GroupTotalKeeps(rows[..|rows| - 1], key, start, keep, m);
    }
  }

  function Inside(b: Bucket, interval: int): Row -> bool {
    r => InInterval(b, interval, r)
  }

  /** A bucket holds how many parsed rows lie in its interval, how many of them failed, and the sums of the
      token counts that they carry. */
  lemma BucketInPlainTerms(buckets: seq<Bucket>, rows: seq<Row>, interval: int, b: Bucket)
    requires interval > 0 && IsGroupBy(buckets, rows, AlignedTo(interval)) && b in buckets
    ensures Plain(rows, Inside(b, interval), b.requests, b.promptTokens, b.completionTokens, b.errors)
  {
    StartsAreAligned(rows, interval, b.start);
    forall r | r in rows ensures Inside(b, interval)(r) <==> FallsIn(r, AlignedTo(interval), b.start) {
      if r.created.Some? {
        OnlyItsOwnInterval(b, interval, r);
      }
    }
    assert HoldsGroup(b, rows, AlignedTo(interval));
    forall m ensures b.Get(m) == Total(rows, Inside(b, interval), m) {
      GroupTotalKeeps(rows, AlignedTo(interval), b.start, Inside(b, interval), m);
    }
    BucketGets(b);
    TotalsArePlain(rows, Inside(b, interval));
  }

  lemma BucketGets(b: Bucket)
    ensures b.Get(RequestCount) == b.requests && b.Get(PromptTokens) == b.promptTokens
    ensures b.Get(CompletionTokens) == b.completionTokens && b.Get(ErrorCount) == b.errors
  {
  }

  /** The buckets together hold the same of all rows that parse. */
  lemma TotalsInPlainTerms(buckets: seq<Bucket>, rows: seq<Row>, interval: int)
    requires interval > 0 && IsGroupBy(buckets, rows, AlignedTo(interval))
    ensures Plain(rows, Parses, SumOf(buckets, RequestCount), SumOf(buckets, PromptTokens),
                  SumOf(buckets, CompletionTokens), SumOf(buckets, ErrorCount))
  {
    forall m ensures SumOf(buckets, m) == Total(rows, Parses, m) {
      Conservation(buckets, rows, interval, m);
      ParsedTotalKeeps(rows, m);
    }
    TotalsArePlain(rows, Parses);
  }
}
