/** The running statistics of the WebSocket service. Each class keeps the whole run it has
    recorded as a ghost history; `Valid` says its fields equal a recomputation from that
    history, and the lemmas say what the recomputed numbers mean. Reals stand for floats,
    and `n * 95 / 100` for the truncated product `n * 0.95`. */
module Metrics {

  // ---------- Sums, extremes and windows ----------

  function Sum(s: seq<real>): real {
    if s == [] then 0.0 else Sum(s[..|s| - 1]) + s[|s| - 1]
  }

  function MaxR(a: real, b: real): real {
    if a < b then b else a
  }

  function MinR(a: real, b: real): real {
    if b < a then b else a
  }

  /** The greatest of `least` and the values. */
  function Greatest(s: seq<real>, least: real): (m: real)
    ensures m >= least && (forall x <- s :: x <= m) && (m == least || m in s)
  {
    if s == [] then least
    else
      assert s == s[..|s| - 1] + [s[|s| - 1]];
      MaxR(Greatest(s[..|s| - 1], least), s[|s| - 1])
  }

  function Least(s: seq<real>): (m: real)
    requires s != []
    ensures m in s && forall x <- s :: m <= x
  {
    assert s == s[..|s| - 1] + [s[|s| - 1]];
    if |s| == 1 then s[0] else MinR(Least(s[..|s| - 1]), s[|s| - 1])
  }

  function Highest(s: seq<real>): (m: real)
    requires s != []
    ensures m in s && forall x <- s :: x <= m
  {
    assert s == s[..|s| - 1] + [s[|s| - 1]];
    if |s| == 1 then s[0] else MaxR(Highest(s[..|s| - 1]), s[|s| - 1])
  }

  /** The last `n` values, or all if there are fewer. */
  function Last<T>(s: seq<T>, n: int): seq<T> {
    if |s| <= n then s else if n <= 0 then [] else s[|s| - n..]
  }

  lemma OneMore(s: seq<real>, x: real, least: real)
    ensures Sum(s + [x]) == Sum(s) + x
    ensures Greatest(s + [x], least) == MaxR(Greatest(s, least), x)
    ensures Least(s + [x]) == if s == [] then x else MinR(Least(s), x)
    ensures Highest(s + [x]) == if s == [] then x else MaxR(Highest(s), x)
  {
    assert (s + [x])[..|s + [x]| - 1] == s;
  }

  lemma LastOfOneMore<T>(s: seq<T>, x: T, n: int)
    ensures Last(s + [x], n) == var t := Last(s, n) + [x]; if |t| > n then t[1..] else t
  {
  }

  /** `n` times a value, as a sum. */
  function Times(x: real, n: nat): real {
    if n == 0 then 0.0 else Times(x, n - 1) + x
  }

  lemma {:induction false} TimesIsProduct(x: real, n: nat)
    ensures Times(x, n) == x * n as real
  {
    if n > 0 {
      TimesIsProduct(x, n - 1);
      var m := (n - 1) as real;
      assert n as real == m + 1.0 && x * (m + 1.0) == x * m + x;
    }
  }

  /** `avg` is the mean of the values; any number is where there are none. */
  predicate IsMean(avg: real, s: seq<real>) {
    Times(avg, |s|) == Sum(s)
  }

  lemma MeanIsMean(s: seq<real>)
    requires s != []
    ensures IsMean(Sum(s) / |s| as real, s)
  {
    TimesIsProduct(Sum(s) / |s| as real, |s|);
    Quotient(Sum(s), |s| as real);
  }

  lemma Quotient(a: real, b: real)
    requires b != 0.0
    ensures a / b * b == a
  {
  }

  lemma RunningTimes(avg: real, n: nat, x: real)
    requires n > 0
    ensures Times((avg * (n - 1) as real + x) / n as real, n) == Times(avg, n - 1) + x
  {
    TimesIsProduct((avg * (n - 1) as real + x) / n as real, n);
    TimesIsProduct(avg, n - 1);
    Quotient(avg * (n - 1) as real + x, n as real);
  }

  /** The source's update of a mean by the `n`-th value. */
  method RunningMean(avg: real, n: nat, x: real, ghost s: seq<real>) returns (mean: real)
    requires n == |s| + 1 && IsMean(avg, s)
    ensures IsMean(mean, s + [x])
  {
    RunningTimes(avg, n, x);
    OneMore(s, x, 0.0);
    mean := (avg * (n - 1) as real + x) / n as real;
  }

  predicate Within(x: real, low: real, high: real) {
    low <= x <= high
  }

  lemma {:induction false} SumBounds(s: seq<real>, low: real, high: real)
    requires forall x <- s :: Within(x, low, high)
    ensures |s| as real * low <= Sum(s) <= |s| as real * high
  {
    if s != [] {
      var n := |s|;
      forall x <- s[..n - 1] ensures Within(x, low, high) { assert x in s; }
      assert s[n - 1] in s && Within(s[n - 1], low, high);
      SumBounds(s[..n - 1], low, high);
      assert n as real * low == (n - 1) as real * low + low;
      assert n as real * high == (n - 1) as real * high + high;
    }
  }

  lemma MeanInBounds(avg: real, s: seq<real>, low: real, high: real)
    requires s != [] && IsMean(avg, s) && forall x <- s :: Within(x, low, high)
    ensures low <= avg <= high
  {
    SumBounds(s, low, high);
    TimesIsProduct(avg, |s|);
    Scales(avg, low, |s| as real);
    Scales(high, avg, |s| as real);
  }

  lemma Scales(a: real, b: real, n: real)
    requires n > 0.0 && a * n >= b * n
    ensures a >= b
  {
    assert a - b < 0.0 ==> (a - b) * n < 0.0;
  }

  // ---------- Sorting and rank ----------

  predicate Ascending(s: seq<real>) {
    forall i, j | 0 <= i < j < |s| :: s[i] <= s[j]
  }

  function Insert(x: real, s: seq<real>): seq<real> {
    if s == [] || x < s[0] then [x] + s else [s[0]] + Insert(x, s[1..])
  }

  /** The values in ascending order. */
  function Sorted(s: seq<real>): seq<real> {
    if s == [] then [] else Insert(s[|s| - 1], Sorted(s[..|s| - 1]))
  }

  /** How many values are at most `x`. */
  function AtMost(s: seq<real>, x: real): nat {
    if s == [] then 0 else AtMost(s[1..], x) + if s[0] <= x then 1 else 0
  }

  function AtLeast(s: seq<real>, x: real): nat {
    if s == [] then 0 else AtLeast(s[1..], x) + if s[0] >= x then 1 else 0
  }

  lemma {:induction false} InsertCounts(x: real, s: seq<real>, y: real)
    requires Ascending(s)
    ensures Ascending(Insert(x, s)) && |Insert(x, s)| == |s| + 1
    ensures forall z <- Insert(x, s) :: z == x || z in s
    ensures AtMost(Insert(x, s), y) == AtMost(s, y) + if x <= y then 1 else 0
    ensures AtLeast(Insert(x, s), y) == AtLeast(s, y) + if x >= y then 1 else 0
  {
    if s == [] || x < s[0] {
      assert ([x] + s)[1..] == s;
    } else {
      InsertCounts(x, s[1..], y);
      assert ([s[0]] + Insert(x, s[1..]))[1..] == Insert(x, s[1..]);
      forall z <- Insert(x, s[1..]) ensures s[0] <= z {}
    }
  }

  lemma {:induction false} CountsOfLast(s: seq<real>, y: real)
    requires s != []
    ensures AtMost(s, y) == AtMost(s[..|s| - 1], y) + if s[|s| - 1] <= y then 1 else 0
    ensures AtLeast(s, y) == AtLeast(s[..|s| - 1], y) + if s[|s| - 1] >= y then 1 else 0
  {
    if |s| > 1 {
      CountsOfLast(s[1..], y);
      assert s[1..][..|s| - 2] == s[..|s| - 1][1..];
    }
  }

  /** Sorting changes the order and nothing else: the result ascends and counts alike. */
  lemma {:induction false} SortedIsPermutation(s: seq<real>, y: real)
    ensures Ascending(Sorted(s)) && |Sorted(s)| == |s|
    ensures forall z <- Sorted(s) :: z in s
    ensures AtMost(Sorted(s), y) == AtMost(s, y) && AtLeast(Sorted(s), y) == AtLeast(s, y)
  {
    if s != [] {
      SortedIsPermutation(s[..|s| - 1], y);
      InsertCounts(s[|s| - 1], Sorted(s[..|s| - 1]), y);
      CountsOfLast(s, y);
    }
  }

  lemma {:induction false} AscendingCounts(s: seq<real>, x: real, k: nat)
    requires Ascending(s) && k < |s| && s[k] == x
    ensures AtMost(s, x) >= k + 1 && AtLeast(s, x) >= |s| - k
  {
    if k > 0 {
      AscendingCounts(s[1..], x, k - 1);
    } else if |s| > 1 {
      AllAtLeast(s[1..], x);
    }
  }

  lemma {:induction false} AllAtLeast(s: seq<real>, x: real)
    requires forall y <- s :: y >= x
    ensures AtLeast(s, x) == |s|
  {
    if s != [] {
      assert s[0] in s && forall y <- s[1..] :: y in s;
      AllAtLeast(s[1..], x);
    }
  }

  // ---------- PerformanceMetrics ----------

  datatype Latency = Latency(avg: real, p50: real, p95: real, p99: real)

  function OfWindow(w: seq<real>): Latency {
    if w == [] then Latency(0.0, 0.0, 0.0, 0.0)
    else
      SortedIsPermutation(w, 0.0);
      var sorted, n := Sorted(w), |w|;
      Latency(Sum(w) / n as real, sorted[n / 2], sorted[n * 95 / 100], sorted[n * 99 / 100])
  }

  class PerformanceMetrics {
    var avg: real
    var p50: real
    var p95: real
    var p99: real
    var max: real
    var samples: seq<real>
    var maxSamples: int
    ghost var run: seq<real>

    /** The window is the last samples of the run, the statistics are those of the window,
        and the maximum is that of the run and 0. */
    ghost predicate Valid()
      reads this
    {
      && samples == Last(run, maxSamples)
      && Latency(avg, p50, p95, p99) == OfWindow(samples)
      && max == Greatest(run, 0.0)
    }

    constructor (maxSamples: int)
      ensures Valid() && run == [] && this.maxSamples == maxSamples
    {
      avg, p50, p95, p99, max := 0.0, 0.0, 0.0, 0.0, 0.0;
      samples, this.maxSamples := [], maxSamples;
      run := [];
    }

    method RecordLatency(latency: real)
      requires Valid()
      modifies this
      ensures Valid() && run == old(run) + [latency] && maxSamples == old(maxSamples)
    {
      LastOfOneMore(run, latency, maxSamples);
      OneMore(run, latency, 0.0);
      samples := samples + [latency];
      max := MaxR(max, latency);
      if |samples| > maxSamples {
        samples := samples[1..];
      }
      run := run + [latency];
      RecalculateStatistics();
    }

    method RecalculateStatistics()
      requires samples == [] ==> Latency(avg, p50, p95, p99) == OfWindow(samples)
      modifies this`avg, this`p50, this`p95, this`p99
      ensures Latency(avg, p50, p95, p99) == OfWindow(samples)
    {
      if samples == [] {
        return;
      }
      SortedIsPermutation(samples, 0.0);
      avg := Sum(samples) / |samples| as real;
      var sorted, n := Sorted(samples), |samples|;
      p50 := sorted[n / 2];
      p95 := sorted[n * 95 / 100];
      p99 := sorted[n * 99 / 100];
    }
  }

  /** The value has rank `k` in the window: at least `k + 1` samples are at most it and at
      least `|w| - k` are at least it, and it is one of them. */
  predicate HasRank(w: seq<real>, x: real, k: int) {
    x in w && AtMost(w, x) >= k + 1 && AtLeast(w, x) >= |w| - k
  }

  lemma SortedHasRank(w: seq<real>, k: nat)
    requires k < |w|
    ensures |Sorted(w)| == |w| && HasRank(w, Sorted(w)[k], k)
  {
    SortedIsPermutation(w, 0.0);
    var x := Sorted(w)[k];
    SortedIsPermutation(w, x);
    AscendingCounts(Sorted(w), x, k);
    assert x in Sorted(w);
  }

  lemma PercentilesInOrder(w: seq<real>)
    requires w != []
    ensures var l, n := OfWindow(w), |w|;
      && HasRank(w, l.p50, n / 2) && HasRank(w, l.p95, n * 95 / 100) && HasRank(w, l.p99, n * 99 / 100)
      && l.p50 <= l.p95 <= l.p99
  {
    var n := |w|;
    SortedIsPermutation(w, 0.0);
    SortedHasRank(w, n / 2);
    SortedHasRank(w, n * 95 / 100);
    SortedHasRank(w, n * 99 / 100);
  }

  /** After any run that leaves samples the window has the last of them; the average is
      their mean and lies between their extremes; each percentile is a sample of the right
      rank, and they are in order below the maximum. */
  lemma LatencyMeaning(run: seq<real>, cap: int)
    requires run != [] && cap >= 1
    ensures var w := Last(run, cap);
      var l, n := OfWindow(w), |w|;
      && w <= run[|run| - n..] && n == (if |run| < cap then |run| else cap)
      && IsMean(l.avg, w) && Least(w) <= l.avg <= Highest(w)
      && HasRank(w, l.p50, n / 2) && HasRank(w, l.p95, n * 95 / 100) && HasRank(w, l.p99, n * 99 / 100)
      && l.p50 <= l.p95 <= l.p99 <= Greatest(run, 0.0)
  {
    var w := Last(run, cap);
    PercentilesInOrder(w);
    MeanIsMean(w);
    MeanInBounds(OfWindow(w).avg, w, Least(w), Highest(w));
    assert OfWindow(w).p99 in run;
  }

  // ---------- ConnectionMetrics ----------

  class ConnectionMetrics {
    var totalDisconnections: nat
    var avgDuration: real
    var maxDuration: real
    var minDuration: real
    ghost var run: seq<real>

    /** The average times the count is the sum of the durations, and the extremes are
        those of the run. */
    ghost predicate Valid()
      reads this
    {
      && totalDisconnections == |run|
      && IsMean(avgDuration, run)
      && (run == [] ==> avgDuration == maxDuration == minDuration == 0.0)
      && (run != [] ==> minDuration == Least(run) && maxDuration == Highest(run))
    }

    constructor ()
      ensures Valid() && run == []
    {
      totalDisconnections, avgDuration, maxDuration, minDuration := 0, 0.0, 0.0, 0.0;
      run := [];
    }

    method IncrementDisconnection(duration: real)
      requires Valid()
      modifies this
      ensures Valid() && run == old(run) + [duration]
    {
      totalDisconnections := totalDisconnections + 1;
      if totalDisconnections == 1 {
        avgDuration, maxDuration, minDuration := duration, duration, duration;
      } else {
        var n := totalDisconnections;
        avgDuration := RunningMean(avgDuration, n, duration, run);
        maxDuration := MaxR(maxDuration, duration);
        minDuration := MinR(minDuration, duration);
      }
      OneMore(run, duration, 0.0);
      run := run + [duration];
    }
  }

  lemma AverageBetweenExtremes(c: ConnectionMetrics)
    requires c.Valid()
    ensures c.minDuration <= c.avgDuration <= c.maxDuration
  {
    if c.run != [] {
      MeanInBounds(c.avgDuration, c.run, c.minDuration, c.maxDuration);
    }
  }

  // ---------- Tallies ----------

  function Bump(m: map<string, nat>, k: string): map<string, nat> {
    m[k := (if k in m then m[k] else 0) + 1]
  }

  function TallyOf(kinds: seq<string>): map<string, nat> {
    if kinds == [] then map[] else Bump(TallyOf(kinds[..|kinds| - 1]), kinds[|kinds| - 1])
  }

  method CountKind(m: map<string, nat>, k: string) returns (r: map<string, nat>)
    ensures r == Bump(m, k)
  {
    r := m;
    if k !in r {
      r := r[k := 0];
    }
    r := r[k := r[k] + 1];
  }

  /** The sum of the values of a map. */
  ghost function SumOver(m: map<string, nat>): nat
    decreases |m|
  {
    if m == map[] then 0
    else
      var k :| k in m;
      m[k] + SumOver(m - {k})
  }

  lemma {:induction false} SumWithout(m: map<string, nat>, k: string)
    requires k in m
    ensures SumOver(m) == m[k] + SumOver(m - {k})
    decreases |m|
  {
    var j :| j in m && SumOver(m) == m[j] + SumOver(m - {j});
    if j != k {
      SumWithout(m - {j}, k);
      SumWithout(m - {k}, j);
      assert m - {j} - {k} == m - {k} - {j};
    }
  }

  /** A tally has an entry for every kind that occurred, and its entries add up to the
      number of events. */
  lemma {:induction false} TallyCounts(kinds: seq<string>)
    ensures forall k :: k in TallyOf(kinds) <==> k in kinds
    ensures forall k <- kinds :: TallyOf(kinds)[k] == multiset(kinds)[k]
    ensures SumOver(TallyOf(kinds)) == |kinds|
  {
    if kinds != [] {
      var before, k := kinds[..|kinds| - 1], kinds[|kinds| - 1];
      var m := TallyOf(before);
      assert kinds == before + [k];
      TallyCounts(before);
      SumWithout(Bump(m, k), k);
      assert Bump(m, k) - {k} == m - {k};
      if k in m {
        SumWithout(m, k);
      } else {
        assert m - {k} == m;
      }
    }
  }

  // ---------- MessageMetrics ----------

  function Total(s: seq<nat>): nat {
    if s == [] then 0 else Total(s[..|s| - 1]) + s[|s| - 1]
  }

  function Largest(s: seq<nat>): nat {
    if s == [] then 0
    else
      var before, x := Largest(s[..|s| - 1]), s[|s| - 1];
      if before < x then x else before
  }

  /** It is one of the values, and none is larger. */
  lemma {:induction false} LargestIsMaximum(s: seq<nat>)
    requires s != []
    ensures Largest(s) in s && forall i | 0 <= i < |s| :: s[i] <= Largest(s)
  {
    var before := s[..|s| - 1];
    if before != [] { LargestIsMaximum(before); }
  }

  lemma SizesOfOneMore(s: seq<nat>, x: nat)
    ensures Total(s + [x]) == Total(s) + x
    ensures Largest(s + [x]) == if Largest(s) < x then x else Largest(s)
  {
    assert (s + [x])[..|s|] == s;
  }

  /** `a // n`: how often `n` can be taken from `a`. */
  function FloorDiv(a: nat, n: nat): nat
    requires n > 0
  {
    if a < n then 0 else FloorDiv(a - n, n) + 1
  }

  lemma {:induction false} FloorDivBounds(a: nat, n: nat)
    requires n > 0
    ensures var q := FloorDiv(a, n); q * n <= a < (q + 1) * n
  {
    if a >= n {
      FloorDivBounds(a - n, n);
      var q := FloorDiv(a - n, n);
      assert (q + 1) * n == q * n + n && (q + 2) * n == (q + 1) * n + n;
    }
  }

  lemma CancelFactor(a: int, b: int, n: nat)
    requires a * n < b * n
    ensures a < b
  {
    assert a >= b ==> (a - b) * n >= 0;
  }

  lemma QuotientIs(a: nat, n: nat, q: nat)
    requires n > 0 && q * n <= a < (q + 1) * n
    ensures a / n == q
  {
    var d := a / n;
    assert a == d * n + a % n;
    assert (d + 1) * n == d * n + n;
    CancelFactor(d, q + 1, n);
    CancelFactor(q, d + 1, n);
  }

  method FlooredMean(total: nat, n: nat) returns (mean: nat)
    requires n > 0
    ensures mean == FloorDiv(total, n)
  {
    FloorDivBounds(total, n);
    QuotientIs(total, n, FloorDiv(total, n));
    mean := total / n;
  }

  /** `sizes` are the positive sizes sent, `audiences` the numbers of recipients of the
      broadcasts, which have more than one, and `kinds` the types of all messages. */
  class MessageMetrics {
    var totalSent: nat
    var totalReceived: nat
    var byType: map<string, nat>
    var avgSize: nat
    var maxSize: nat
    var totalSize: nat
    var totalBroadcasts: nat
    var avgRecipients: real
    ghost var sizes: seq<nat>
    ghost var audiences: seq<real>
    ghost var kinds: seq<string>

    ghost predicate SizesHold()
      reads `totalSent, `totalSize, `avgSize, `maxSize, `sizes
    {
      && totalSent == |sizes| && totalSize == Total(sizes) && maxSize == Largest(sizes)
      && avgSize == if sizes == [] then 0 else FloorDiv(Total(sizes), |sizes|)
    }

    ghost predicate AudiencesHold()
      reads `totalBroadcasts, `avgRecipients, `audiences
    {
      totalBroadcasts == |audiences| && IsMean(avgRecipients, audiences)
    }

    ghost predicate Valid()
      reads this
    {
      SizesHold() && AudiencesHold() && byType == TallyOf(kinds)
    }

    constructor ()
      ensures Valid() && sizes == [] && audiences == [] && kinds == [] && totalReceived == 0
    {
      totalSent, totalReceived, byType := 0, 0, map[];
      avgSize, maxSize, totalSize := 0, 0, 0;
      totalBroadcasts, avgRecipients := 0, 0.0;
      sizes, audiences, kinds := [], [], [];
    }

    method RecordKind(kind: string)
      requires byType == TallyOf(kinds)
      modifies `byType, `kinds
      ensures byType == TallyOf(kinds) && kinds == old(kinds) + [kind]
    {
      assert (kinds + [kind])[..|kinds|] == kinds;
      byType := CountKind(byType, kind);
      kinds := kinds + [kind];
    }

    method RecordSize(size: int)
      requires SizesHold()
      modifies `totalSent, `totalSize, `avgSize, `maxSize, `sizes
      ensures SizesHold() && sizes == if size > 0 then old(sizes) + [size] else old(sizes)
    {
      totalSent := totalSent + if size > 0 then 1 else 0;
      if size > 0 {
        SizesOfOneMore(sizes, size);
        totalSize := totalSize + size;
        if totalSent > 0 {
          avgSize := FlooredMean(totalSize, totalSent);
        }
        maxSize := if maxSize < size then size else maxSize;
        sizes := sizes + [size];
      }
    }

    method RecordAudience(recipients: int)
      requires AudiencesHold()
      modifies `totalBroadcasts, `avgRecipients, `audiences
      ensures AudiencesHold()
      ensures audiences == if recipients > 1 then old(audiences) + [recipients as real] else old(audiences)
    {
      if recipients > 1 {
        totalBroadcasts := totalBroadcasts + 1;
        avgRecipients := RunningMean(avgRecipients, totalBroadcasts, recipients as real, audiences);
        audiences := audiences + [recipients as real];
      }
    }

    method RecordSent(kind: string, size: int, recipients: int)
      requires Valid()
      modifies this
      ensures Valid() && kinds == old(kinds) + [kind] && totalReceived == old(totalReceived)
      ensures sizes == if size > 0 then old(sizes) + [size] else old(sizes)
      ensures audiences == if recipients > 1 then old(audiences) + [recipients as real] else old(audiences)
    {
      RecordKind(kind);
      RecordSize(size);
      RecordAudience(recipients);
    }

    method RecordReceived(kind: string)
      requires Valid()
      modifies this
      ensures Valid() && kinds == old(kinds) + [kind] && totalReceived == old(totalReceived) + 1
      ensures sizes == old(sizes) && audiences == old(audiences)
    {
      totalReceived := totalReceived + 1;
      RecordKind(kind);
    }
  }

  lemma {:induction false} TotalAtMost(s: seq<nat>, high: nat)
    requires forall i | 0 <= i < |s| :: s[i] <= high
    ensures Total(s) <= |s| * high
  {
    if s != [] {
      var n := |s|;
      TotalAtMost(s[..n - 1], high);
      assert n * high == (n - 1) * high + high;
    }
  }

  lemma FlooredMeanAtMost(s: seq<nat>)
    requires s != []
    ensures FloorDiv(Total(s), |s|) <= Largest(s)
  {
    LargestIsMaximum(s);
    TotalAtMost(s, Largest(s));
    FloorDivBounds(Total(s), |s|);
    assert (Largest(s) + 1) * |s| == |s| * Largest(s) + |s|;
    CancelFactor(FloorDiv(Total(s), |s|), Largest(s) + 1, |s|);
  }

  /** The floored mean size never exceeds the largest, and the tally counts
      every message once. */
  lemma MessageMeaning(m: MessageMetrics)
    requires m.Valid()
    ensures m.avgSize <= m.maxSize
    ensures SumOver(m.byType) == |m.kinds|
    ensures m.totalSent == 0 || m.avgSize * m.totalSent <= m.totalSize < (m.avgSize + 1) * m.totalSent
  {
    if m.sizes != [] {
      FlooredMeanAtMost(m.sizes);
      FloorDivBounds(m.totalSize, m.totalSent);
    }
    TallyCounts(m.kinds);
  }

  // ---------- ErrorMetrics ----------

  datatype ErrorEntry = ErrorEntry(kind: string, message: string, critical: bool)

  function ErrorKinds(run: seq<ErrorEntry>): seq<string> {
    seq(|run|, i requires 0 <= i < |run| => run[i].kind)
  }

  function Criticals(run: seq<ErrorEntry>): nat {
    if run == [] then 0 else Criticals(run[..|run| - 1]) + if run[|run| - 1].critical then 1 else 0
  }

  /** `list[start:]` with Python's reading of negative and too large starts. */
  function SliceFrom<T>(s: seq<T>, start: int): seq<T> {
    if start < -|s| then s else if start < 0 then s[|s| + start..] else if start <= |s| then s[start..] else []
  }

  /** The errors kept: the last `cap`, except that a cap of 0 keeps them all. */
  function Recent(run: seq<ErrorEntry>, cap: int): seq<ErrorEntry> {
    if cap == 0 then run else Last(run, cap)
  }

  lemma ErrorsOfOneMore(run: seq<ErrorEntry>, e: ErrorEntry)
    ensures TallyOf(ErrorKinds(run + [e])) == Bump(TallyOf(ErrorKinds(run)), e.kind)
    ensures Criticals(run + [e]) == Criticals(run) + if e.critical then 1 else 0
  {
    assert ErrorKinds(run + [e])[..|run|] == ErrorKinds(run);
    assert (run + [e])[..|run|] == run;
  }

  lemma RecentOfOneMore(run: seq<ErrorEntry>, e: ErrorEntry, cap: int)
    ensures Recent(run + [e], cap) ==
      var r := Recent(run, cap) + [e]; if |r| > cap then SliceFrom(r, -cap) else r
  {
  }

  class ErrorMetrics {
    var total: nat
    var totalCritical: nat
    var byType: map<string, nat>
    var recent: seq<ErrorEntry>
    var maxRecent: int
    ghost var run: seq<ErrorEntry>

    ghost predicate Valid()
      reads this
    {
      && total == |run| && totalCritical == Criticals(run)
      && byType == TallyOf(ErrorKinds(run))
      && recent == Recent(run, maxRecent)
    }

    constructor (maxRecent: int)
      ensures Valid() && run == [] && this.maxRecent == maxRecent
    {
      total, totalCritical, byType := 0, 0, map[];
      recent, this.maxRecent := [], maxRecent;
      run := [];
    }

    method RecordError(e: ErrorEntry)
      requires Valid()
      modifies this
      ensures Valid() && run == old(run) + [e] && maxRecent == old(maxRecent)
    {
      ErrorsOfOneMore(run, e);
      RecentOfOneMore(run, e, maxRecent);
      total := total + 1;
      if e.critical {
        totalCritical := totalCritical + 1;
      }
      byType := CountKind(byType, e.kind);
      recent := recent + [e];
      if |recent| > maxRecent {
        recent := SliceFrom(recent, -maxRecent);
      }
      run := run + [e];
    }
  }

  function CriticalAt(run: seq<ErrorEntry>): set<nat> {
    set i: nat | i < |run| && run[i].critical
  }

  lemma {:induction false} CriticalsAreCounted(run: seq<ErrorEntry>)
    ensures Criticals(run) == |CriticalAt(run)|
  {
    if run != [] {
      var before, last := run[..|run| - 1], |run| - 1;
      CriticalsAreCounted(before);
      assert CriticalAt(run) == CriticalAt(before) + if run[last].critical then {last} else {};
    }
  }

  /** The tally adds up to the total, the critical errors are counted, and the errors kept are
      the last `min(total, cap)` exactly when the cap is not 0 or there were no errors; a cap
      of 0 keeps them all. */
  lemma ErrorMeaning(m: ErrorMetrics)
    requires m.Valid()
    ensures SumOver(m.byType) == m.total
    ensures m.recent == Last(m.run, m.maxRecent) <==> m.maxRecent != 0 || m.total == 0
    ensures m.maxRecent == 0 ==> m.recent == m.run
    ensures m.total == |m.run| && m.totalCritical == |CriticalAt(m.run)|
  {
    TallyCounts(ErrorKinds(m.run));
    CriticalsAreCounted(m.run);
  }
}
